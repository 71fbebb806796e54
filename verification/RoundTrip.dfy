/**
  When the dynamic decoder returns the value that was serialized: exactly when
  the value is `Faithful` to the type, a condition on the value and the type alone.
 */
module RoundTrip {
  import opened Wire
  import opened Vint
  import opened CqlTypes
  import opened Cells
  import opened ValueCodec

  /** The values whose accepted serialization has no bytes and still decodes to them. */
  predicate EncodesEmpty(v: CqlValue) {
    || v.Empty?
    || ((v.Ascii? || v.Text?) && v.str == [])
    || (v.Blob? && v.raw == [])
  }

  predicate UniqueName(values: seq<NamedValue>, i: nat)
    requires i < |values|
  {
    forall j :: 0 <= j < |values| && j != i ==> values[j].name != values[i].name
  }

  predicate Faithful(v: CqlValue, t: ColumnType)
    decreases t, 1
  {
    match v
    case Empty => !EmptyIsOrdinary(t)
    case Ascii(s) => t == Native(NativeType.Ascii) && IsAscii(s)
    case Text(_) => t == Native(NativeType.Text)
    case Varint(digits) => digits != []
    case Time(nanos) => 0 <= nanos <= MAX_TIME
    case List(l) => t.Collection? && t.typ.List? && FaithfulAll(l, t.typ.elem)
    case Set(l) => t.Collection? && t.typ.Set? && FaithfulAll(l, t.typ.elem)
    case Map(m) => t.Collection? && t.typ.Map? && FaithfulEntries(m, t.typ)
    case Vector(l) => t.Vector? && FaithfulVector(l, t.elem)
    case UserDefinedType(_, _, values) => t.UserDefinedType? && FaithfulFields(values, t.fields)
    case Tuple(vs) => t.Tuple? && FaithfulElems(vs, t.elems)
    case _ => true
  }

  predicate FaithfulAll(l: seq<CqlValue>, e: ColumnType)
    decreases e, 2
  {
    forall i :: 0 <= i < |l| ==> Faithful(l[i], e)
  }

  predicate FaithfulEntries(m: seq<Entry>, c: CollectionType)
    requires c.Map?
    decreases c, 2
  {
    forall i :: 0 <= i < |m| ==> Faithful(m[i].key, c.key) && Faithful(m[i].value, c.value)
  }

  /** Fixed-length elements must all be there; otherwise the last one must have bytes. */
  predicate FaithfulVector(l: seq<CqlValue>, e: ColumnType)
    decreases e, 3
  {
    && l != [] && FaithfulAll(l, e)
    && (if TypeSize(e).Some? then forall i :: 0 <= i < |l| ==> !l[i].Empty?
        else !EncodesEmpty(l[|l| - 1]))
  }

  predicate FaithfulElems(vs: seq<Option<CqlValue>>, ts: seq<ColumnType>)
    decreases ts, 1
  {
    |vs| == |ts| > 0 && FaithfulEach(vs, ts)
  }

  predicate FaithfulEach(vs: seq<Option<CqlValue>>, ts: seq<ColumnType>)
    requires |vs| == |ts|
    decreases ts, 0
  {
    forall i :: 0 <= i < |vs| ==> FaithfulNullable(vs[i], ts[i])
  }

  predicate FaithfulPicked(vs: seq<Option<CqlValue>>, fs: seq<Field>)
    requires |vs| == |fs|
    decreases fs, 0
  {
    forall i :: 0 <= i < |vs| ==> FaithfulNullable(vs[i], fs[i].typ)
  }

  /** Every field in the order of the type, null wherever a name repeats. */
  predicate FaithfulFields(values: seq<NamedValue>, fs: seq<Field>)
    decreases fs, 0
  {
    && |values| == |fs| > 0
    && forall i :: 0 <= i < |values| ==>
         && values[i].name == fs[i].name
         && FaithfulNullable(values[i].value, fs[i].typ)
         && (values[i].value.Some? ==> UniqueName(values, i))
  }

  predicate FaithfulNullable(v: Option<CqlValue>, t: ColumnType)
    decreases t, 2
  {
    v.Some? ==> Faithful(v.value, t)
  }

  // ------------------------------------------------------------------ natives

  predicate IsSigned(v: CqlValue) {
    v.Counter? || v.Int? || v.BigInt? || v.Timestamp? || v.SmallInt? || v.TinyInt? || v.Time?
  }

  function SignedValue(v: CqlValue): (i: int)
    requires IsSigned(v)
  {
    match v
    case Counter(i) => i
    case Int(i) => i
    case BigInt(i) => i
    case Timestamp(i) => i
    case SmallInt(i) => i
    case TinyInt(i) => i
    case Time(i) => i
  }

  function SignedWidth(v: CqlValue): (w: nat)
    requires IsSigned(v)
    ensures w > 0 && FitsSigned(SignedValue(v), w)
  {
    Pow256Values();
    if v.TinyInt? then 1 else if v.SmallInt? then 2 else if v.Int? then 4 else 8
  }

  lemma SignedRoundTrip(v: CqlValue, n: NativeType, bs: bytes)
    requires IsSigned(v) && SerializeNative(v, n) == Ok(bs)
    ensures bs != []
    ensures DeserializeNative(n, bs) == Done(v) <==> (v.Time? ==> 0 <= v.nanos <= MAX_TIME)
  {
    hide Pow256, ToSignedBE, FromSignedBE;
    assert bs == ToSignedBE(SignedValue(v), SignedWidth(v));
    FromToSignedBE(SignedValue(v), SignedWidth(v));
  }

  lemma UnsignedRoundTrip(v: CqlValue, n: NativeType, bs: bytes)
    requires (v.Date? || v.Float? || v.Double?) && SerializeNative(v, n) == Ok(bs)
    ensures bs != []
    ensures DeserializeNative(n, bs) == Done(v)
  {
    Pow256Values();
    if v.Double? {
      FromToBE(v.bits64, 8);
    } else {
      FromToBE(if v.Date? then v.days else v.bits32, 4);
    }
  }

  lemma DecimalRoundTrip(v: CqlValue, n: NativeType, bs: bytes)
    requires v.Decimal? && SerializeNative(v, n) == Ok(bs)
    ensures bs != [] && DeserializeNative(n, bs) == Done(v)
  {
    hide Pow256, ToSignedBE, FromSignedBE;
    Pow256Values();
    FromToSignedBE(v.scale, 4);
    assert bs[..4] == ToSignedBE(v.scale, 4) && bs[4..] == v.unscaled;
  }

  lemma BytesLikeRoundTrip(v: CqlValue, n: NativeType)
    requires v.Ascii? || v.Text? || v.Blob? || v.Varint? || v.Boolean? || v.Inet? || v.Timeuuid? || v.Uuid?
    requires SerializeNative(v, n).Ok?
    ensures Deserialize(Native(n), SerializeNative(v, n).value) == Done(v) <==> Faithful(v, Native(n))
  {
  }

  lemma NativeRoundTrip(v: CqlValue, n: NativeType)
    requires SerializeNative(v, n).Ok?
    ensures Deserialize(Native(n), SerializeNative(v, n).value) == Done(v) <==> Faithful(v, Native(n))
  {
    hide SerializeNative, DeserializeNative, Serialize;
    var bs := SerializeNative(v, n).value;
    if IsSigned(v) {
      SignedRoundTrip(v, n, bs);
    } else if v.Date? || v.Float? || v.Double? {
      UnsignedRoundTrip(v, n, bs);
    } else if v.Decimal? {
      DecimalRoundTrip(v, n, bs);
    } else if v.Duration? {
      DurationNative(v, n, bs);
    } else {
      OtherNatives(v, n);
      BytesLikeRoundTrip(v, n);
    }
  }

  lemma OtherNatives(v: CqlValue, n: NativeType)
    requires SerializeNative(v, n).Ok? && !IsSigned(v) && !v.Date? && !v.Float? && !v.Double?
    requires !v.Decimal? && !v.Duration?
    ensures v.Ascii? || v.Text? || v.Blob? || v.Varint? || v.Boolean? || v.Inet? || v.Timeuuid? || v.Uuid?
  {
  }

  lemma DurationNative(v: CqlValue, n: NativeType, bs: bytes)
    requires v.Duration? && SerializeNative(v, n) == Ok(bs)
    ensures bs != [] && DeserializeNative(n, bs) == Done(v)
  {
    hide VintEncode, DeserializeDuration;
    DurationRoundTrip(v.months, v.days32, v.nanoseconds);
  }

  /** Three consecutive vints round trip every duration. */
  lemma DurationRoundTrip(months: i32, days: i32, ns: i64)
    ensures DeserializeDuration(VintEncode(months) + VintEncode(days) + VintEncode(ns))
            == Done(CqlValue.Duration(months, days, ns))
    ensures VintEncode(months) != []
  {
    var m, d, n := VintEncode(months), VintEncode(days), VintEncode(ns);
    EncodedLength(ZigZagEncode(months));
    VintRoundTrip(months, d + n);
    VintRoundTrip(days, n);
    VintRoundTrip(ns, []);
    assert m + d + n == m + (d + n) && n == n + [];
    AcceptedParts(m + d + n, months, d + n, days, n, ns);
  }

  lemma AcceptedParts(buf: bytes, months: i64, rest: bytes, days: i64, rest': bytes, ns: i64)
    requires VintDecode(buf) == Ok(Read(months, rest)) && VintDecode(rest) == Ok(Read(days, rest'))
    requires VintDecode(rest') == Ok(Read(ns, [])) && FitsI32(months) && FitsI32(days)
    ensures DeserializeDuration(buf) == Done(CqlValue.Duration(months, days, ns))
  {
  }

  /** A duration whose months or days do not fit an `i32` is rejected. */
  lemma WideDurationRejected(months: i64, days: i64, ns: i64)
    requires !FitsI32(months) || !FitsI32(days)
    ensures DeserializeDuration(VintEncode(months) + VintEncode(days) + VintEncode(ns)) == Failed
  {
    hide *;
    var m, d, n := VintEncode(months), VintEncode(days), VintEncode(ns);
    VintRoundTrip(months, d + n);
    VintRoundTrip(days, n);
    assert m + d + n == m + (d + n);
    RejectedParts(m + d + n, months, d + n, days, n);
  }

  lemma RejectedParts(buf: bytes, months: i64, rest: bytes, days: i64, rest': bytes)
    requires VintDecode(buf) == Ok(Read(months, rest)) && VintDecode(rest) == Ok(Read(days, rest'))
    requires !FitsI32(months) || !FitsI32(days)
    ensures DeserializeDuration(buf) == Failed
  {
  }

  // ------------------------------------------------------- lengths of contents

  lemma {:induction false} PartAt(l: seq<CqlValue>, e: ColumnType, i: nat)
    requires SerializeAll(l, e).Ok? && i < |l|
    ensures Serialize(l[i], e) == Ok(SerializeAll(l, e).value[i])
  {
    if i > 0 {
      PartAt(l[1..], e, i - 1);
    }
  }

  lemma NativeFixedLength(v: CqlValue, n: NativeType, size: nat)
    requires TypeSize(Native(n)) == Some(size) && SerializeNative(v, n).Ok?
    ensures |SerializeNative(v, n).value| == size > 0
  {
  }

  /** What a fixed-length type allows: at most its size, and all of it unless empty. */
  lemma {:induction false} FixedLength(v: CqlValue, t: ColumnType, size: nat)
    requires TypeSize(t) == Some(size) && Serialize(v, t).Ok?
    ensures |Serialize(v, t).value| <= size
    ensures v.Empty? ==> |Serialize(v, t).value| == 0
    ensures Faithful(v, t) && !v.Empty? ==> |Serialize(v, t).value| == size > 0
    decreases t, 0
  {
    if t.Native? && !v.Empty? {
      NativeFixedLength(v, t.native, size);
    } else if t.Vector? && !v.Empty? {
      FixedLengths(v.items, t.elem, TypeSize(t.elem).value);
    }
  }

  lemma FixedLengths(l: seq<CqlValue>, e: ColumnType, size: nat)
    requires TypeSize(e) == Some(size) && SerializeAll(l, e).Ok?
    ensures |Concat(SerializeAll(l, e).value)| <= size * |l|
    ensures FaithfulVector(l, e) ==> |Concat(SerializeAll(l, e).value)| == size * |l| > 0
    decreases e, 1
  {
    hide Serialize, Faithful, TypeSize;
    var parts := SerializeAll(l, e).value;
    forall i | 0 <= i < |parts|
      ensures |parts[i]| <= size
      ensures FaithfulVector(l, e) ==> |parts[i]| == size > 0
    {
      PartAt(l, e, i);
      FixedLength(l[i], e, size);
      assert FaithfulVector(l, e) ==> FaithfulAll(l, e) && !l[i].Empty?;
    }
    ConcatBound(parts, size);
    if FaithfulVector(l, e) {
      assert |parts[0]| == size > 0;
      assert size * |l| > 0;
    }
  }

  /** A faithful value has no bytes only if it encodes as the empty string. */
  lemma EmptyContents(v: CqlValue, t: ColumnType)
    requires Serialize(v, t).Ok?
    ensures EncodesEmpty(v) ==> Serialize(v, t).value == []
    ensures Faithful(v, t) && Serialize(v, t).value == [] ==> EncodesEmpty(v)
  {
    hide UnsignedVintEncode, SerializeAll, SerializeEntries, SerializeFields, SerializeElems, JoinCells, JoinVariable;
    if v.Duration? {
      EncodedLength(ZigZagEncode(v.months));
    } else if v.Vector? && Faithful(v, t) {
      assert FaithfulVector(v.items, t.elem);
      if TypeSize(t.elem).Some? {
        FixedLengths(v.items, t.elem, TypeSize(t.elem).value);
      }
    } else if v.Tuple? {
      assert |Serialize(v, t).value| >= 4 * |v.elems|;
      assert Faithful(v, t) ==> FaithfulElems(v.elems, t.elems);
    } else if v.UserDefinedType? {
      assert |Serialize(v, t).value| >= 4 * |t.fields|;
      assert Faithful(v, t) ==> FaithfulFields(v.fields, t.fields);
    } else if t.Native? && !EncodesEmpty(v) {
      NativeContents(v, t.native);
    }
  }

  lemma NativeContents(v: CqlValue, n: NativeType)
    requires SerializeNative(v, n).Ok? && !v.Duration?
    ensures SerializeNative(v, n).value == [] ==>
              (v.Ascii? || v.Text? || v.Blob? || v.Varint?)
  {
  }

  // -------------------------------------------------------------- collections

  lemma ConsInjective<T>(a: T, s: seq<T>, b: T, t: seq<T>)
    ensures [a] + s == [b] + t <==> a == b && s == t
  {
    if [a] + s == [b] + t {
      assert ([a] + s)[0] == ([b] + t)[0];
      assert ([a] + s)[1..] == ([b] + t)[1..];
    }
  }

  lemma DecodeAllCons(e: ColumnType, head: Option<bytes>, tail: seq<Option<bytes>>, l: seq<CqlValue>)
    requires l != []
    ensures DecodeAll(e, [head] + tail) == Done(l)
            <==> DecodeValue(e, head) == Done(l[0]) && DecodeAll(e, tail) == Done(l[1..])
  {
    var items := [head] + tail;
    assert items[0] == head && items[1..] == tail;
    var h, t := DecodeValue(e, head), DecodeAll(e, tail);
    if h.Done? && t.Done? {
      ConsInjective(h.value, t.value, l[0], l[1..]);
      assert [l[0]] + l[1..] == l;
    }
  }

  lemma {:induction false} AllRoundTrip(l: seq<CqlValue>, e: ColumnType)
    requires SerializeAll(l, e).Ok?
    ensures DecodeAll(e, AsItems(SerializeAll(l, e).value)) == Done(l) <==> FaithfulAll(l, e)
    decreases e, 2, |l|
  {
    hide Serialize, Deserialize, Faithful;
    if l != [] {
      var head, tail := Serialize(l[0], e).value, SerializeAll(l[1..], e).value;
      ValueRoundTrip(l[0], e);
      AllRoundTrip(l[1..], e);
      assert AsItems([head] + tail) == [Some(head)] + AsItems(tail);
      DecodeAllCons(e, Some(head), AsItems(tail), l);
      FaithfulAllCons(l, e);
    }
  }

  lemma FaithfulAllCons(l: seq<CqlValue>, e: ColumnType)
    requires l != []
    ensures FaithfulAll(l, e) <==> Faithful(l[0], e) && FaithfulAll(l[1..], e)
  {
    assert forall i :: 0 < i < |l| ==> l[i] == l[1..][i - 1];
  }

  /** A null part is never decoded as an element. */
  lemma {:induction false} NullIsNoElement(e: ColumnType, items: seq<Option<bytes>>, i: nat)
    requires i < |items| && items[i].None?
    ensures !DecodeAll(e, items).Done?
    decreases i
  {
    if i > 0 {
      NullIsNoElement(e, items[1..], i - 1);
    }
  }

  lemma {:induction false} EntriesRoundTrip(m: seq<Entry>, c: CollectionType)
    requires c.Map? && SerializeEntries(m, c).Ok?
    ensures DecodeEntries(c, AsItems(SerializeEntries(m, c).value)) == Done(m)
            <==> FaithfulEntries(m, c)
    decreases c, 2, |m|
  {
    hide Serialize, Deserialize, Faithful;
    if m != [] {
      var k, v := Serialize(m[0].key, c.key).value, Serialize(m[0].value, c.value).value;
      var tail := SerializeEntries(m[1..], c).value;
      ValueRoundTrip(m[0].key, c.key);
      ValueRoundTrip(m[0].value, c.value);
      EntriesRoundTrip(m[1..], c);
      assert AsItems([k, v] + tail) == [Some(k), Some(v)] + AsItems(tail);
      DecodeEntriesCons(c, Some(k), Some(v), AsItems(tail), m);
      assert forall i :: 0 < i < |m| ==> m[i] == m[1..][i - 1];
    }
  }

  lemma DecodeEntriesCons(c: CollectionType, k: Option<bytes>, v: Option<bytes>,
                          tail: seq<Option<bytes>>, m: seq<Entry>)
    requires c.Map? && m != []
    ensures DecodeEntries(c, [k, v] + tail) == Done(m)
            <==> && DecodeValue(c.key, k) == Done(m[0].key)
                 && DecodeValue(c.value, v) == Done(m[0].value)
                 && DecodeEntries(c, tail) == Done(m[1..])
  {
    var items := [k, v] + tail;
    assert items[0] == k && items[1] == v && items[2..] == tail;
    var x, y, t := DecodeValue(c.key, k), DecodeValue(c.value, v), DecodeEntries(c, tail);
    if x.Done? && y.Done? && t.Done? {
      ConsInjective(Entry(x.value, y.value), t.value, m[0], m[1..]);
      assert [m[0]] + m[1..] == m;
    }
  }

  // -------------------------------------------------------- tuples and fields

  lemma {:induction false} ElemsRoundTrip(vs: seq<Option<CqlValue>>, ts: seq<ColumnType>)
    requires |vs| == |ts| && SerializeElems(vs, ts).Ok?
    ensures DecodeElems(ts, SerializeElems(vs, ts).value) == Done(vs) <==> FaithfulEach(vs, ts)
    decreases ts, 0
  {
    if vs != [] {
      SerializeElemsCons(vs, ts);
      NullableRoundTrip(vs[0], ts[0]);
      ElemsRoundTrip(vs[1..], ts[1..]);
      DecodeElemsCons(ts, SerializeElems(vs, ts).value, vs);
      FaithfulEachCons(vs, ts);
    }
  }

  lemma SerializeElemsCons(vs: seq<Option<CqlValue>>, ts: seq<ColumnType>)
    requires |vs| == |ts| > 0 && SerializeElems(vs, ts).Ok?
    ensures SerializeNullable(vs[0], ts[0]) == Ok(SerializeElems(vs, ts).value[0])
    ensures SerializeElems(vs[1..], ts[1..]) == Ok(SerializeElems(vs, ts).value[1..])
  {
    hide Serialize;
  }

  lemma DecodeElemsCons(ts: seq<ColumnType>, items: seq<Option<bytes>>, vs: seq<Option<CqlValue>>)
    requires |items| == |ts| == |vs| > 0
    ensures DecodeElems(ts, items) == Done(vs)
            <==> && DecodeNullable(ts[0], items[0]) == Done(vs[0])
                 && DecodeElems(ts[1..], items[1..]) == Done(vs[1..])
  {
    hide Deserialize;
    var h, t := DecodeNullable(ts[0], items[0]), DecodeElems(ts[1..], items[1..]);
    assert [vs[0]] + vs[1..] == vs;
    if h.Done? && t.Done? {
      ConsInjective(h.value, t.value, vs[0], vs[1..]);
    }
  }

  lemma FaithfulEachCons(vs: seq<Option<CqlValue>>, ts: seq<ColumnType>)
    requires |vs| == |ts| > 0
    ensures FaithfulEach(vs, ts) <==> FaithfulNullable(vs[0], ts[0]) && FaithfulEach(vs[1..], ts[1..])
  {
    assert forall i :: 0 < i < |vs| ==> vs[i] == vs[1..][i - 1] && ts[i] == ts[1..][i - 1];
  }

  lemma NullableRoundTrip(v: Option<CqlValue>, t: ColumnType)
    requires SerializeNullable(v, t).Ok?
    ensures DecodeNullable(t, SerializeNullable(v, t).value) == Done(v) <==> FaithfulNullable(v, t)
    decreases t, 2
  {
    if v.Some? {
      hide Serialize, Deserialize, Faithful;
      ValueRoundTrip(v.value, t);
    }
  }

  function Named(fs: seq<Field>, vs: seq<Option<CqlValue>>): (r: seq<NamedValue>)
    requires |fs| == |vs|
    ensures |r| == |fs|
    ensures forall i :: 0 <= i < |r| ==> r[i] == NamedValue(fs[i].name, vs[i])
  {
    seq(|fs|, i requires 0 <= i < |fs| => NamedValue(fs[i].name, vs[i]))
  }

  lemma DecodeFieldsCons(fs: seq<Field>, items: seq<Option<bytes>>, vs: seq<Option<CqlValue>>)
    requires |items| == |fs| == |vs| > 0
    ensures DecodeFields(fs, items) == Done(Named(fs, vs))
            <==> && DecodeNullable(fs[0].typ, items[0]) == Done(vs[0])
                 && DecodeFields(fs[1..], items[1..]) == Done(Named(fs[1..], vs[1..]))
  {
    var h, t := DecodeNullable(fs[0].typ, items[0]), DecodeFields(fs[1..], items[1..]);
    assert Named(fs, vs) == [NamedValue(fs[0].name, vs[0])] + Named(fs[1..], vs[1..]);
    if h.Done? && t.Done? {
      ConsInjective(NamedValue(fs[0].name, h.value), t.value,
                    NamedValue(fs[0].name, vs[0]), Named(fs[1..], vs[1..]));
    }
  }

  lemma SerializeFieldsCons(vs: seq<Option<CqlValue>>, fs: seq<Field>)
    requires |vs| == |fs| > 0 && SerializeFields(vs, fs).Ok?
    ensures SerializeNullable(vs[0], fs[0].typ) == Ok(SerializeFields(vs, fs).value[0])
    ensures SerializeFields(vs[1..], fs[1..]) == Ok(SerializeFields(vs, fs).value[1..])
  {
  }

  lemma FaithfulPickedCons(vs: seq<Option<CqlValue>>, fs: seq<Field>)
    requires |vs| == |fs| > 0
    ensures FaithfulPicked(vs, fs)
            <==> FaithfulNullable(vs[0], fs[0].typ) && FaithfulPicked(vs[1..], fs[1..])
  {
    assert forall i :: 0 < i < |vs| ==> vs[i] == vs[1..][i - 1] && fs[i] == fs[1..][i - 1];
  }

  lemma {:induction false} FieldsRoundTrip(vs: seq<Option<CqlValue>>, fs: seq<Field>)
    requires |vs| == |fs| && SerializeFields(vs, fs).Ok?
    ensures DecodeFields(fs, SerializeFields(vs, fs).value) == Done(Named(fs, vs))
            <==> FaithfulPicked(vs, fs)
    decreases fs, 0
  {
    if vs != [] {
      SerializeFieldsCons(vs, fs);
      NullableRoundTrip(vs[0], fs[0].typ);
      FieldsRoundTrip(vs[1..], fs[1..]);
      DecodeFieldsCons(fs, SerializeFields(vs, fs).value, vs);
      FaithfulPickedCons(vs, fs);
    }
  }

  /** Null is written for null and for nothing else. */
  lemma {:induction false} FieldsNulls(vs: seq<Option<CqlValue>>, fs: seq<Field>)
    requires |vs| == |fs| && SerializeFields(vs, fs).Ok?
    ensures var r := DecodeFields(fs, SerializeFields(vs, fs).value);
            r.Done? ==> forall i :: 0 <= i < |fs| ==> (r.value[i].value.Some? <==> vs[i].Some?)
    decreases fs, 0
  {
    if vs != [] {
      SerializeFieldsCons(vs, fs);
      FieldsNulls(vs[1..], fs[1..]);
    }
  }

  // ----------------------------------------------------- user-defined types

  predicate SameNames(values: seq<NamedValue>, fs: seq<Field>) {
    |values| == |fs| && forall i :: 0 <= i < |fs| ==> values[i].name == fs[i].name
  }

  /** The last value of a name, found by its position. */
  lemma {:induction false} LastNamedAt(values: seq<NamedValue>, name: string) returns (k: nat)
    requires exists i :: 0 <= i < |values| && values[i].name == name
    ensures k < |values| && values[k].name == name && LastNamed(values, name) == values[k].value
    ensures forall j :: k < j < |values| ==> values[j].name != name
  {
    k := |values| - 1;
    if values[k].name != name {
      k := LastNamedAt(values[..k], name);
    }
  }

  /** Values that are null wherever a name repeats are picked up in place. */
  lemma PickInPlace(values: seq<NamedValue>, fs: seq<Field>)
    requires SameNames(values, fs)
    requires forall i :: 0 <= i < |values| && values[i].value.Some? ==> UniqueName(values, i)
    ensures Named(fs, PickFields(values, fs)) == values
  {
    forall i | 0 <= i < |fs|
      ensures PickField(values, fs, i) == values[i].value
    {
      var k := LastNamedAt(values, fs[i].name);
      if HasField(fs[..i], fs[i].name) {
        var j :| 0 <= j < i && fs[..i][j].name == fs[i].name;
        assert values[j].name == values[i].name;
      }
    }
  }

  /** Where a name repeats, picking up the values loses all but nulls. */
  lemma PickedAreUnique(values: seq<NamedValue>, fs: seq<Field>, i: nat, j: nat)
    requires SameNames(values, fs) && i < |fs| && j < |fs| && i != j
    requires forall j :: 0 <= j < |fs| ==> (values[j].value.Some? <==> PickField(values, fs, j).Some?)
    requires values[j].name == values[i].name
    ensures values[i].value.None?
  {
    if j < i {
      assert fs[..i][j].name == fs[i].name;
    } else {
      var k := LastNamedAt(values, fs[i].name);
      assert fs[..k][i].name == fs[k].name;
    }
  }

  lemma UdtRoundTrip(values: seq<NamedValue>, fs: seq<Field>)
    requires fs != [] && SerializeFields(PickFields(values, fs), fs).Ok?
    ensures DecodeFields(fs, SerializeFields(PickFields(values, fs), fs).value) == Done(values)
            <==> FaithfulFields(values, fs)
    decreases fs, 1
  {
    var picked := PickFields(values, fs);
    FieldsRoundTrip(picked, fs);
    FieldsNulls(picked, fs);
    if FaithfulFields(values, fs) {
      PickInPlace(values, fs);
      assert forall i :: 0 <= i < |fs| ==> picked[i] == Named(fs, picked)[i].value;
    }
    if DecodeFields(fs, SerializeFields(picked, fs).value) == Done(values) {
      forall i | 0 <= i < |values| && values[i].value.Some?
        ensures UniqueName(values, i)
      {
        forall j | 0 <= j < |values| && j != i
          ensures values[j].name != values[i].name
        {
          if values[j].name == values[i].name {
            PickedAreUnique(values, fs, i, j);
          }
        }
      }
      PickInPlace(values, fs);
      assert forall i :: 0 <= i < |fs| ==> picked[i] == Named(fs, picked)[i].value;
    }
  }

  // --------------------------------------------------------- the main theorem

  lemma VectorRoundTrip(l: seq<CqlValue>, e: ColumnType, buf: bytes)
    requires l != [] && SerializeAll(l, e).Ok?
    requires var parts := SerializeAll(l, e).value;
             if TypeSize(e).Some? then buf == Concat(parts) else LengthPrefixed(parts) == Ok(buf)
    ensures DeserializeVector(e, |l|, buf) == Done(l) <==> FaithfulVector(l, e)
    ensures FaithfulVector(l, e) ==> buf != []
    decreases e, 3
  {
    AllRoundTrip(l, e);
    if TypeSize(e).Some? {
      FixedVectorRoundTrip(l, e, TypeSize(e).value);
    } else {
      VariableVectorRoundTrip(l, e);
    }
  }

  lemma VariableVectorRoundTrip(l: seq<CqlValue>, e: ColumnType)
    requires l != [] && SerializeAll(l, e).Ok? && TypeSize(e).None?
    requires LengthPrefixed(SerializeAll(l, e).value).Ok?
    requires DecodeAll(e, AsItems(SerializeAll(l, e).value)) == Done(l) <==> FaithfulAll(l, e)
    ensures DeserializeVector(e, |l|, JoinVariable(SerializeAll(l, e).value)) == Done(l)
            <==> FaithfulVector(l, e)
  {
    hide Serialize, SerializeAll, Deserialize, DecodeAll, Faithful, TypeSize, RawVariable, JoinVariable;
    var parts, last := SerializeAll(l, e).value, |l| - 1;
    VariableFraming(parts);
    PartAt(l, e, last);
    EmptyContents(l[last], e);
    if parts[last] == [] {
      NullIsNoElement(e, CutLast(parts), last);
    }
  }

  lemma FixedVectorRoundTrip(l: seq<CqlValue>, e: ColumnType, size: nat)
    requires l != [] && SerializeAll(l, e).Ok? && TypeSize(e) == Some(size)
    requires DecodeAll(e, AsItems(SerializeAll(l, e).value)) == Done(l) <==> FaithfulAll(l, e)
    ensures DeserializeVector(e, |l|, Concat(SerializeAll(l, e).value)) == Done(l)
            <==> FaithfulVector(l, e)
    ensures FaithfulVector(l, e) ==> Concat(SerializeAll(l, e).value) != []
  {
    hide Serialize, SerializeAll, Deserialize, DecodeAll, Faithful, TypeSize, RawFixed, Concat;
    var parts := SerializeAll(l, e).value;
    FixedLengths(l, e, size);
    assert FaithfulVector(l, e) ==> FaithfulAll(l, e);
    forall i | 0 <= i < |l|
      ensures |parts[i]| <= size
      ensures Faithful(l[i], e) ==> (l[i].Empty? <==> !(|parts[i]| == size > 0))
    {
      PartAt(l, e, i);
      FixedLength(l[i], e, size);
    }
    FixedFraming(parts, size);
    var raw := RawFixed(size, |l|, Concat(parts));
    if exists i :: 0 <= i < |raw.items| && raw.items[i].None? {
      var i :| 0 <= i < |raw.items| && raw.items[i].None?;
      NullIsNoElement(e, raw.items, i);
    }
  }

  lemma CountedFraming(n: nat, items: seq<Option<bytes>>)
    requires Counted(n, items).Ok?
    ensures ReadIntLength(Counted(n, items).value) == Ok(Read(n, JoinCells(items)))
    ensures Counted(n, items).value != []
    ensures RawCells(|items|, JoinCells(items)) == Raw(items, true)
  {
    IntLengthRoundTrip(n, JoinCells(items));
    RawCellsInvertJoin(items);
  }

  lemma CellsRoundTrip(l: seq<CqlValue>, e: ColumnType, items: seq<Option<bytes>>)
    requires SerializeAll(l, e).Ok? && items == AsItems(SerializeAll(l, e).value)
    requires Counted(|l|, items).Ok?
    ensures DeserializeCells(e, |l|, JoinCells(items)) == Done(l) <==> FaithfulAll(l, e)
    decreases e, 3
  {
    CountedFraming(|l|, items);
    AllRoundTrip(l, e);
  }

  lemma ListRoundTrip(l: seq<CqlValue>, c: CollectionType, items: seq<Option<bytes>>)
    requires !c.Map? && SerializeAll(l, c.elem).Ok? && items == AsItems(SerializeAll(l, c.elem).value)
    requires Counted(|l|, items).Ok?
    ensures DeserializeCollection(c, Counted(|l|, items).value)
            == Done(if c.List? then CqlValue.List(l) else CqlValue.Set(l))
            <==> FaithfulAll(l, c.elem)
    decreases c, 0
  {
    hide Serialize, SerializeAll, Deserialize, DecodeAll, Faithful, RawCells, JoinCells, ReadIntLength;
    CountedFraming(|l|, items);
    CellsRoundTrip(l, c.elem, items);
  }

  lemma VecRoundTrip(v: CqlValue, t: ColumnType)
    requires (v.List? || v.Set? || v.Vector?) && Serialize(v, t).Ok?
    ensures Deserialize(t, Serialize(v, t).value) == Done(v) <==> Faithful(v, t)
    decreases t, 0
  {
    hide SerializeAll, DeserializeVector, DeserializeCollection, Counted;
    if t.Collection? {
      CollectedRoundTrip(v, t.typ);
    } else if v.items != [] {
      VectorRoundTrip(v.items, t.elem, Serialize(v, t).value);
    }
  }

  lemma CollectedRoundTrip(v: CqlValue, c: CollectionType)
    requires (v.List? || v.Set? || v.Vector?) && Serialize(v, Collection(false, c)).Ok?
    ensures var t := Collection(false, c);
            Deserialize(t, Serialize(v, t).value) == Done(v) <==> Faithful(v, t)
    decreases c, 1
  {
    hide SerializeAll, DeserializeCollection, Counted;
    var items := AsItems(SerializeAll(v.items, c.elem).value);
    CountedFraming(|v.items|, items);
    ListRoundTrip(v.items, c, items);
    CollectionTag(c, Counted(|v.items|, items).value);
  }

  /** A list type decodes to a list and a set type to a set. */
  lemma CollectionTag(c: CollectionType, buf: bytes)
    ensures var r := DeserializeCollection(c, buf);
            r.Done? ==> (c.List? <==> r.value.List?) && (c.Set? <==> r.value.Set?)
  {
  }

  lemma MapRoundTrip(v: CqlValue, t: ColumnType)
    requires v.Map? && Serialize(v, t).Ok?
    ensures Deserialize(t, Serialize(v, t).value) == Done(v) <==> Faithful(v, t)
    decreases t, 0
  {
    hide DecodeEntries, RawCells, JoinCells, ReadIntLength;
    var m := v.entries;
    var items := AsItems(SerializeEntries(m, t.typ).value);
    CountedFraming(|m|, items);
    EntriesRoundTrip(m, t.typ);
    assert DeserializeMap(t.typ, |m|, JoinCells(items)) == DecodeEntries(t.typ, items);
  }

  lemma CellsOfTuple(ts: seq<ColumnType>, parts: seq<Option<bytes>>)
    requires |parts| == |ts| && forall i :: 0 <= i < |parts| ==> FitsCell(parts[i])
    ensures DeserializeTuple(ts, JoinCells(parts)) == DecodeElems(ts, parts)
  {
    hide DecodeElems, RawCells, JoinCells;
    RawCellsInvertJoin(parts);
  }

  lemma CellsOfUdt(fs: seq<Field>, parts: seq<Option<bytes>>)
    requires |parts| == |fs| && forall i :: 0 <= i < |parts| ==> FitsCell(parts[i])
    ensures DeserializeUdt(fs, JoinCells(parts)) == DecodeFields(fs, parts)
  {
    hide DecodeFields, RawFields, JoinCells;
    RawCellsInvertJoin(parts);
  }

  lemma TupleLength(ts: seq<ColumnType>, buf: bytes)
    ensures var r := DeserializeTuple(ts, buf); r.Done? ==> |r.value| == |ts|
  {
    hide RawCells, Deserialize;
  }

  lemma TupleRoundTrip(v: CqlValue, t: ColumnType)
    requires v.Tuple? && Serialize(v, t).Ok?
    ensures Deserialize(t, Serialize(v, t).value) == Done(v) <==> Faithful(v, t)
    decreases t, 0
  {
    hide DecodeElems, DeserializeTuple;
    TupleLength(t.elems, Serialize(v, t).value);
    if |v.elems| == |t.elems| {
      CellsOfTuple(t.elems, SerializeElems(v.elems, t.elems).value);
      ElemsRoundTrip(v.elems, t.elems);
    }
  }

  lemma UserDefinedTypeRoundTrip(v: CqlValue, t: ColumnType)
    requires v.UserDefinedType? && Serialize(v, t).Ok?
    ensures Deserialize(t, Serialize(v, t).value) == Done(v) <==> Faithful(v, t)
    decreases t, 0
  {
    hide DecodeFields, DeserializeUdt;
    if t.fields != [] {
      CellsOfUdt(t.fields, SerializeFields(PickFields(v.fields, t.fields), t.fields).value);
      UdtRoundTrip(v.fields, t.fields);
    }
  }

  lemma {:induction false} NullFieldAt(vs: seq<Option<CqlValue>>, fs: seq<Field>, i: nat)
    requires |vs| == |fs| && SerializeFields(vs, fs).Ok? && i < |vs| && vs[i].None?
    ensures SerializeFields(vs, fs).value[i].None?
    decreases i
  {
    hide Serialize;
    if i > 0 {
      NullFieldAt(vs[1..], fs[1..], i - 1);
    }
  }

  lemma UdtParts(v: CqlValue, t: ColumnType)
    requires v.UserDefinedType? && t.UserDefinedType? && Serialize(v, t).Ok?
    ensures v.keyspace == t.keyspace && v.name == t.name
    ensures var parts := SerializeFields(PickFields(v.fields, t.fields), t.fields);
            parts.Ok? && forall i :: 0 <= i < |parts.value| ==> FitsCell(parts.value[i])
  {
  }

  /** Fields that are null from the `k`-th on need not be written at all. */
  lemma OmittedFieldsRoundTrip(v: CqlValue, t: ColumnType, k: nat)
    requires v.UserDefinedType? && t.UserDefinedType? && Serialize(v, t).Ok? && Faithful(v, t)
    requires 0 < k <= |v.fields| && forall i :: k <= i < |v.fields| ==> v.fields[i].value.None?
    ensures |v.fields| == |t.fields| && SerializeFields(PickFields(v.fields, t.fields), t.fields).Ok?
    ensures var parts := SerializeFields(PickFields(v.fields, t.fields), t.fields).value;
            && (forall i :: 0 <= i < k ==> FitsCell(parts[..k][i]))
            && Deserialize(t, JoinCells(parts[..k])) == Done(v)
  {
    hide Serialize, RawFields, DecodeFields, JoinCells;
    UdtParts(v, t);
    assert FaithfulFields(v.fields, t.fields);
    var picked := PickFields(v.fields, t.fields);
    var parts := SerializeFields(picked, t.fields).value;
    PickInPlace(v.fields, t.fields);
    UdtRoundTrip(v.fields, t.fields);
    MissingFields(|parts|, parts[..k]);
    forall i | k <= i < |parts|
      ensures parts[i].None?
    {
      assert picked[i] == Named(t.fields, picked)[i].value;
      NullFieldAt(picked, t.fields, i);
    }
    assert parts == parts[..k] + Nulls(|parts| - k);
    assert |JoinCells(parts[..k])| >= 4 * k;
  }

  /** The decoder returns the serialized value exactly when the value is faithful to the type. */
  lemma ValueRoundTrip(v: CqlValue, t: ColumnType)
    requires Serialize(v, t).Ok?
    ensures Deserialize(t, Serialize(v, t).value) == Done(v) <==> Faithful(v, t)
    decreases t, 1
  {
    if v.List? || v.Set? || v.Vector? {
      VecRoundTrip(v, t);
    } else if v.Map? {
      MapRoundTrip(v, t);
    } else if v.Tuple? {
      TupleRoundTrip(v, t);
    } else if v.UserDefinedType? {
      UserDefinedTypeRoundTrip(v, t);
    } else if !v.Empty? {
      NativeRoundTrip(v, t.native);
    }
  }

  // ------------------------------------------------- values that do not come back

  /** Accepted by the serializer, and not what the decoder returns. */
  predicate Lost(v: CqlValue, t: ColumnType) {
    Serialize(v, t).Ok? && Deserialize(t, Serialize(v, t).value) != Done(v)
  }

  lemma UnfaithfulIsLost(v: CqlValue, t: ColumnType)
    requires Serialize(v, t).Ok? && !Faithful(v, t)
    ensures Lost(v, t)
  {
    hide Serialize, Deserialize, Faithful;
    ValueRoundTrip(v, t);
  }

  lemma EmptyTextWritten()
    ensures Serialize(CqlValue.Text([]), Native(NativeType.Text)) == Ok([])
  {
  }

  lemma SerializeOne(v: CqlValue, e: ColumnType, contents: bytes)
    requires Serialize(v, e) == Ok(contents)
    ensures SerializeAll([v], e) == Ok([contents])
  {
    hide Serialize;
    assert [v][1..] == [] && [contents] + [] == [contents];
  }

  /** A vector whose last element is an empty text. */
  lemma EmptyLastElementLost()
    ensures Lost(CqlValue.Vector([CqlValue.Text([])]), ColumnType.Vector(Native(NativeType.Text), 1))
  {
    hide Lost, Serialize, Faithful;
    var l, e := [CqlValue.Text([])], Native(NativeType.Text);
    EmptyTextWritten();
    SerializeOne(l[0], e, []);
    EmptyElementWritten(l, e);
    UnfaithfulIsLost(CqlValue.Vector(l), ColumnType.Vector(e, 1));
  }

  lemma EmptyElementWritten(l: seq<CqlValue>, e: ColumnType)
    requires |l| == 1 && TypeSize(e).None? && !SizeOverflows(e) && EncodesEmpty(l[0])
    requires SerializeAll(l, e) == Ok([[]])
    ensures Serialize(CqlValue.Vector(l), ColumnType.Vector(e, 1)).Ok?
    ensures !Faithful(CqlValue.Vector(l), ColumnType.Vector(e, 1))
  {
    hide SerializeAll, Deserialize, TypeSize;
    assert !FaithfulVector(l, e);
  }

  /** A list written as a set comes back as a set. */
  lemma ListComesBackAsSet(e: ColumnType)
    ensures Lost(CqlValue.List([]), Collection(false, CollectionType.Set(e)))
  {
    hide Lost, Deserialize;
    assert SerializeAll([], e) == Ok([]);
    UnfaithfulIsLost(CqlValue.List([]), Collection(false, CollectionType.Set(e)));
  }

  /** A tuple shorter than its type. */
  lemma ShortTupleLost(a: ColumnType, b: ColumnType)
    ensures Lost(CqlValue.Tuple([]), ColumnType.Tuple([a, b]))
  {
    hide Lost, Deserialize;
    assert SerializeElems([], [a, b]) == Ok([]);
    assert !FaithfulElems([], [a, b]);
    UnfaithfulIsLost(CqlValue.Tuple([]), ColumnType.Tuple([a, b]));
  }

  /** A time outside the day is accepted and does not decode. */
  lemma OutOfDayTimeLost(nanos: i64)
    requires !(0 <= nanos <= MAX_TIME)
    ensures Lost(CqlValue.Time(nanos), Native(NativeType.Time))
  {
    hide Lost, Deserialize;
    UnfaithfulIsLost(CqlValue.Time(nanos), Native(NativeType.Time));
  }

  /** A varint of no digits comes back as the empty value, the empty value of a text as a text. */
  lemma EmptiesLost()
    ensures Lost(CqlValue.Varint([]), Native(NativeType.Varint)) && Lost(Empty, Native(NativeType.Text))
  {
    hide Lost, Deserialize;
    UnfaithfulIsLost(CqlValue.Varint([]), Native(NativeType.Varint));
    UnfaithfulIsLost(Empty, Native(NativeType.Text));
  }

  /** A user-defined value without a field of its type comes back with the field, null. */
  lemma MissingFieldsLost(keyspace: string, name: string, f: Field)
    ensures Lost(CqlValue.UserDefinedType(keyspace, name, []),
                 ColumnType.UserDefinedType(false, keyspace, name, [f]))
  {
    hide Lost, Deserialize;
    NullsWritten(f);
    assert PickFields([], [f]) == [None];
    assert !FaithfulFields([], [f]);
    UnfaithfulIsLost(CqlValue.UserDefinedType(keyspace, name, []),
                     ColumnType.UserDefinedType(false, keyspace, name, [f]));
  }

  lemma NullsWritten(f: Field)
    ensures SerializeFields([None], [f]) == Ok([None])
  {
    hide Serialize;
    var vs: seq<Option<CqlValue>> := [None];
    var none: seq<Option<bytes>> := [None];
    assert vs[1..] == [] && SerializeFields([], [f][1..]) == Ok([]);
    assert none + [] == none;
  }
}
