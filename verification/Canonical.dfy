/**
  Which bytes the dynamic codec gives back unchanged: decoding them and serializing
  the value again returns the same bytes exactly when they are `Canonical`, a
  condition on the bytes and the type.
 */
module Canonical {
  import opened Wire
  import opened Vint
  import opened CqlTypes
  import opened Cells
  import opened ValueCodec
  import opened RoundTrip
  import opened Reserialize

  predicate Stable(t: ColumnType, buf: bytes) {
    var r := Deserialize(t, buf);
    r.Done? && Serialize(r.value, t) == Ok(buf)
  }

  // ------------------------------------------------------------------ canonical

  predicate ShortestVint(buf: bytes) {
    var r := VintDecode(buf);
    r.Ok? && |VintEncode(r.value.value)| == |buf| - |r.value.rest|
  }

  /** Three vints in their shortest form and nothing else. */
  predicate ShortestDuration(buf: bytes) {
    && ShortestVint(buf)
    && var rest := VintDecode(buf).value.rest;
       ShortestVint(rest)
       && var rest' := VintDecode(rest).value.rest;
          ShortestVint(rest') && VintDecode(rest').value.rest == []
  }

  predicate CanonicalNative(n: NativeType, buf: bytes) {
    && DeserializeNative(n, buf).Done?
    && (n.Ascii? || n.Text? || n.Blob? || n.Varint? ==> |buf| <= I32_MAX)
    && (n.Boolean? ==> buf[0] <= 1)
    && (n.Duration? ==> ShortestDuration(buf))
  }

  /** The cells fill the buffer, a null written as the length -1. */
  predicate Framed(items: seq<Option<bytes>>, buf: bytes) {
    (forall i :: 0 <= i < |items| ==> FitsCell(items[i])) && JoinCells(items) == buf
  }

  predicate Canonical(t: ColumnType, buf: bytes)
    decreases t, 1
  {
    if buf == [] && !EmptyIsOrdinary(t) then SupportsEmpty(t)
    else
      match t
      case Native(n) => CanonicalNative(n, buf)
      case Collection(frozen, c) => !frozen && CanonicalCollection(c, buf)
      case Vector(e, d) => !SizeOverflows(e) && CanonicalVector(e, d, buf)
      case UserDefinedType(_, _, _, fs) => CanonicalUdt(fs, buf)
      case Tuple(ts) => CanonicalTuple(ts, buf)
  }

  predicate CanonicalCollection(c: CollectionType, buf: bytes)
    decreases c, 4
  {
    match ReadIntLength(buf)
    case Err(_) => false
    case Ok(count) =>
      var raw := RawCells(if c.Map? then 2 * count.value else count.value, count.rest);
      && raw.complete && Framed(raw.items, count.rest)
      && (if c.Map? then CanonicalEntries(c, raw.items) else CanonicalAll(c.elem, raw.items))
  }

  /** Elements of a fixed size fill the buffer; others come with their lengths in the shortest form. */
  predicate CanonicalVector(e: ColumnType, d: nat, buf: bytes)
    decreases e, 4
  {
    var raw := RawVector(e, d, buf);
    && raw.complete && CanonicalAll(e, raw.items)
    && (if TypeSize(e).Some? then |buf| == TypeSize(e).value * d
        else Prefixed(Contents(raw.items), buf))
  }

  predicate CanonicalUdt(fs: seq<Field>, buf: bytes)
    decreases fs, 2
  {
    var raw := RawFields(|fs|, buf);
    raw.complete && Framed(raw.items, buf) && CanonicalFields(fs, raw.items)
  }

  predicate CanonicalTuple(ts: seq<ColumnType>, buf: bytes)
    decreases ts, 1
  {
    var raw := RawCells(|ts|, buf);
    raw.complete && Framed(raw.items, buf) && CanonicalElems(ts, raw.items)
  }

  function Contents(items: seq<Option<bytes>>): (parts: seq<bytes>)
    ensures |parts| == |items|
    ensures forall i :: 0 <= i < |items| && items[i].Some? ==> parts[i] == items[i].value
  {
    seq(|items|, i requires 0 <= i < |items| => if items[i].Some? then items[i].value else [])
  }

  predicate Prefixed(parts: seq<bytes>, buf: bytes) {
    (forall i :: 0 <= i < |parts| ==> FitsWord(parts[i])) && JoinVariable(parts) == buf
  }

  predicate CanonicalItem(e: ColumnType, item: Option<bytes>)
    decreases e, 2
  {
    item.Some? && Canonical(e, item.value)
  }

  predicate CanonicalNullable(t: ColumnType, item: Option<bytes>)
    decreases t, 2
  {
    item.Some? ==> Canonical(t, item.value)
  }

  predicate CanonicalAll(e: ColumnType, items: seq<Option<bytes>>)
    decreases e, 3
  {
    forall i :: 0 <= i < |items| ==> CanonicalItem(e, items[i])
  }

  /** Keys and values alternate. */
  predicate CanonicalEntries(c: CollectionType, items: seq<Option<bytes>>)
    requires c.Map?
    decreases c, 3
  {
    forall i :: 0 <= i < |items| ==> CanonicalItem(if i % 2 == 0 then c.key else c.value, items[i])
  }

  predicate CanonicalElems(ts: seq<ColumnType>, items: seq<Option<bytes>>)
    decreases ts, 0
  {
    |items| == |ts| && forall i :: 0 <= i < |ts| ==> CanonicalNullable(ts[i], items[i])
  }

  predicate CanonicalEach(fs: seq<Field>, items: seq<Option<bytes>>)
    decreases fs, 0
  {
    |items| == |fs| && forall i :: 0 <= i < |fs| ==> CanonicalNullable(fs[i].typ, items[i])
  }

  /** Fields that share a name are null. */
  predicate CanonicalFields(fs: seq<Field>, items: seq<Option<bytes>>)
    decreases fs, 1
  {
    CanonicalEach(fs, items) && forall i :: 0 <= i < |fs| && items[i].Some? ==> UniqueField(fs, i)
  }

  predicate UniqueField(fs: seq<Field>, i: nat)
    requires i < |fs|
  {
    forall j :: 0 <= j < |fs| && j != i ==> fs[j].name != fs[i].name
  }

  // -------------------------------------------------------------------- natives

  lemma VintBack(buf: bytes)
    requires VintDecode(buf).Ok?
    ensures var r := VintDecode(buf).value; ShortestVint(buf) <==> buf == VintEncode(r.value) + r.rest
  {
    hide UnsignedVintDecode, UnsignedVintEncode;
    var u := UnsignedVintDecode(buf).value;
    ZigZagBijection(0, u.value);
    ShortestIsEncoded(buf);
  }

  lemma DurationBack(buf: bytes)
    requires DeserializeDuration(buf).Done?
    ensures var v := DeserializeDuration(buf).value;
            VintEncode(v.months) + VintEncode(v.days32) + VintEncode(v.nanoseconds) == buf <==> ShortestDuration(buf)
  {
    hide VintDecode, VintEncode, ShortestVint;
    var v := DeserializeDuration(buf).value;
    var months := VintDecode(buf).value;
    var days := VintDecode(months.rest).value;
    var ns := VintDecode(days.rest).value;
    var a, b, c := VintEncode(v.months), VintEncode(v.days32), VintEncode(v.nanoseconds);
    VintBack(buf);
    VintBack(months.rest);
    VintBack(days.rest);
    if ShortestDuration(buf) {
      assert buf == a + (b + (c + []));
    }
    if a + b + c == buf {
      VintRoundTrip(v.months, b + c);
      VintRoundTrip(v.days32, c);
      VintRoundTrip(v.nanoseconds, []);
      assert buf == a + (b + c) && c + [] == c;
    }
  }

  lemma BooleanBack(buf: bytes)
    requires |buf| == 1
    ensures [if buf[0] != 0 then 1 else 0] == buf <==> buf[0] <= 1
  {
    assert buf == [buf[0]];
  }

  lemma NumberBack(n: NativeType, buf: bytes)
    requires DeserializeNative(n, buf).Done?
    requires !n.Ascii? && !n.Text? && !n.Blob? && !n.Varint? && !n.Boolean? && !n.Duration? && !n.Decimal?
    ensures SerializeNative(DeserializeNative(n, buf).value, n) == Ok(buf)
  {
    hide FromBE, ToBE, Pow256, ToSignedBE, FromSignedBE;
    ToFromSignedBE(buf);
    ToFromBE(buf);
  }

  lemma NativeStable(n: NativeType, buf: bytes)
    requires DeserializeNative(n, buf).Done?
    ensures SerializeNative(DeserializeNative(n, buf).value, n) == Ok(buf) <==> CanonicalNative(n, buf)
  {
    hide FromBE, ToBE, Pow256, VintDecode, VintEncode, ShortestDuration, ToSignedBE, FromSignedBE;
    if n.Duration? {
      DurationBack(buf);
    } else if n.Decimal? {
      ToFromSignedBE(buf[..4]);
      assert buf[..4] + buf[4..] == buf;
    } else if n.Boolean? {
      BooleanBack(buf);
    } else if !n.Ascii? && !n.Text? && !n.Blob? && !n.Varint? {
      NumberBack(n, buf);
    }
  }

  // ------------------------------------------------------------------ item lists

  predicate AllBack(e: ColumnType, items: seq<Option<bytes>>) {
    var r := DecodeAll(e, items);
    r.Done? && SerializeAll(r.value, e).Ok? && AsItems(SerializeAll(r.value, e).value) == items
  }

  lemma AllBackCons(e: ColumnType, items: seq<Option<bytes>>)
    requires items != []
    ensures AllBack(e, items) <==> items[0].Some? && Stable(e, items[0].value) && AllBack(e, items[1..])
  {
    hide Deserialize, Serialize;
    var h, t := DecodeValue(e, items[0]), DecodeAll(e, items[1..]);
    if h.Done? && t.Done? {
      var l := [h.value] + t.value;
      assert DecodeAll(e, items) == Done(l) && l[0] == h.value && l[1..] == t.value;
      var a, b := Serialize(h.value, e), SerializeAll(t.value, e);
      if a.Ok? && b.Ok? {
        assert AsItems([a.value] + b.value) == [Some(a.value)] + AsItems(b.value);
        assert items == [items[0]] + items[1..];
        ConsInjective(Some(a.value), AsItems(b.value), items[0], items[1..]);
      }
    }
  }

  lemma CanonicalAllCons(e: ColumnType, items: seq<Option<bytes>>)
    requires items != []
    ensures CanonicalAll(e, items) <==> CanonicalItem(e, items[0]) && CanonicalAll(e, items[1..])
  {
    hide CanonicalItem;
    assert forall i :: 0 < i < |items| ==> items[i] == items[1..][i - 1];
  }

  lemma {:induction false} AllStable(e: ColumnType, items: seq<Option<bytes>>)
    ensures AllBack(e, items) <==> CanonicalAll(e, items)
    decreases e, 6, |items|
  {
    hide Canonical, Stable, AllBack;
    if items == [] {
      NothingBack(e);
    } else {
      AllBackCons(e, items);
      CanonicalAllCons(e, items);
      if items[0].Some? {
        CanonicalExactlyWhen(e, items[0].value);
      }
      AllStable(e, items[1..]);
    }
  }

  lemma NothingBack(e: ColumnType)
    ensures AllBack(e, [])
  {
    assert AsItems([]) == [];
  }

  predicate EntriesBack(c: CollectionType, items: seq<Option<bytes>>)
    requires c.Map?
  {
    var r := DecodeEntries(c, items);
    r.Done? && SerializeEntries(r.value, c).Ok? && AsItems(SerializeEntries(r.value, c).value) == items
  }

  lemma EntriesBackCons(c: CollectionType, items: seq<Option<bytes>>)
    requires c.Map? && |items| >= 2
    ensures EntriesBack(c, items)
            <==> && items[0].Some? && Stable(c.key, items[0].value)
                 && items[1].Some? && Stable(c.value, items[1].value) && EntriesBack(c, items[2..])
  {
    hide Deserialize, Serialize;
    var k, v, t := DecodeValue(c.key, items[0]), DecodeValue(c.value, items[1]), DecodeEntries(c, items[2..]);
    if k.Done? && v.Done? && t.Done? {
      var m := [Entry(k.value, v.value)] + t.value;
      assert DecodeEntries(c, items) == Done(m) && m[0] == Entry(k.value, v.value) && m[1..] == t.value;
      var a, b, p := Serialize(k.value, c.key), Serialize(v.value, c.value), SerializeEntries(t.value, c);
      if a.Ok? && b.Ok? && p.Ok? {
        assert AsItems([a.value, b.value] + p.value) == [Some(a.value)] + ([Some(b.value)] + AsItems(p.value));
        assert items == [items[0]] + ([items[1]] + items[2..]);
        ConsInjective(Some(a.value), [Some(b.value)] + AsItems(p.value), items[0], [items[1]] + items[2..]);
        ConsInjective(Some(b.value), AsItems(p.value), items[1], items[2..]);
      }
    }
  }

  lemma CanonicalEntriesCons(c: CollectionType, items: seq<Option<bytes>>)
    requires c.Map? && |items| >= 2
    ensures CanonicalEntries(c, items)
            <==> CanonicalItem(c.key, items[0]) && CanonicalItem(c.value, items[1]) && CanonicalEntries(c, items[2..])
  {
    hide CanonicalItem;
    assert forall i :: 2 <= i < |items| ==> items[i] == items[2..][i - 2] && i % 2 == (i - 2) % 2;
  }

  lemma {:induction false} EntriesStable(c: CollectionType, items: seq<Option<bytes>>)
    requires c.Map? && |items| % 2 == 0
    ensures EntriesBack(c, items) <==> CanonicalEntries(c, items)
    decreases c, 6, |items|
  {
    hide Canonical, Stable, EntriesBack;
    if items == [] {
      NoEntriesBack(c);
    } else {
      EntriesBackCons(c, items);
      CanonicalEntriesCons(c, items);
      if items[0].Some? {
        CanonicalExactlyWhen(c.key, items[0].value);
      }
      if items[1].Some? {
        CanonicalExactlyWhen(c.value, items[1].value);
      }
      EntriesStable(c, items[2..]);
    }
  }

  lemma NoEntriesBack(c: CollectionType)
    requires c.Map?
    ensures EntriesBack(c, [])
  {
    assert AsItems([]) == [];
  }

  predicate NullableBack(t: ColumnType, item: Option<bytes>) {
    var r := DecodeNullable(t, item);
    r.Done? && SerializeNullable(r.value, t) == Ok(item)
  }

  lemma NullableStable(t: ColumnType, item: Option<bytes>)
    ensures NullableBack(t, item) <==> CanonicalNullable(t, item)
    decreases t, 6
  {
    hide Canonical, Deserialize, Serialize;
    if item.Some? {
      CanonicalExactlyWhen(t, item.value);
    }
  }

  predicate ElemsBack(ts: seq<ColumnType>, items: seq<Option<bytes>>)
    requires |items| == |ts|
  {
    var r := DecodeElems(ts, items);
    r.Done? && SerializeElems(r.value, ts) == Ok(items)
  }

  lemma ElemsBackCons(ts: seq<ColumnType>, items: seq<Option<bytes>>)
    requires |items| == |ts| > 0
    ensures ElemsBack(ts, items) <==> NullableBack(ts[0], items[0]) && ElemsBack(ts[1..], items[1..])
  {
    hide DecodeNullable, SerializeNullable;
    var h, t := DecodeNullable(ts[0], items[0]), DecodeElems(ts[1..], items[1..]);
    if h.Done? && t.Done? {
      var vs := [h.value] + t.value;
      assert DecodeElems(ts, items) == Done(vs) && vs[0] == h.value && vs[1..] == t.value;
      var a, b := SerializeNullable(h.value, ts[0]), SerializeElems(t.value, ts[1..]);
      if a.Ok? && b.Ok? {
        assert items == [items[0]] + items[1..];
        ConsInjective(a.value, b.value, items[0], items[1..]);
      }
    }
  }

  lemma CanonicalElemsCons(ts: seq<ColumnType>, items: seq<Option<bytes>>)
    requires |items| == |ts| > 0
    ensures CanonicalElems(ts, items) <==> CanonicalNullable(ts[0], items[0]) && CanonicalElems(ts[1..], items[1..])
  {
    hide CanonicalNullable;
    assert forall i :: 0 < i < |ts| ==> ts[i] == ts[1..][i - 1] && items[i] == items[1..][i - 1];
  }

  lemma {:induction false} ElemsStable(ts: seq<ColumnType>, items: seq<Option<bytes>>)
    requires |items| == |ts|
    ensures ElemsBack(ts, items) <==> CanonicalElems(ts, items)
    decreases ts, 0
  {
    hide NullableBack, CanonicalNullable;
    if items != [] {
      ElemsBackCons(ts, items);
      CanonicalElemsCons(ts, items);
      NullableStable(ts[0], items[0]);
      ElemsStable(ts[1..], items[1..]);
    }
  }

  predicate FieldsBack(fs: seq<Field>, items: seq<Option<bytes>>)
    requires |items| == |fs|
  {
    var r := DecodeFields(fs, items);
    r.Done? && SerializeFields(ValuesOnly(r.value), fs) == Ok(items)
  }

  lemma FieldsBackCons(fs: seq<Field>, items: seq<Option<bytes>>)
    requires |items| == |fs| > 0
    ensures FieldsBack(fs, items) <==> NullableBack(fs[0].typ, items[0]) && FieldsBack(fs[1..], items[1..])
  {
    hide DecodeNullable, SerializeNullable;
    var h, t := DecodeNullable(fs[0].typ, items[0]), DecodeFields(fs[1..], items[1..]);
    if h.Done? && t.Done? {
      var values := [NamedValue(fs[0].name, h.value)] + t.value;
      assert DecodeFields(fs, items) == Done(values);
      var vs := ValuesOnly(values);
      assert vs[0] == h.value && vs[1..] == ValuesOnly(t.value);
      var a, b := SerializeNullable(h.value, fs[0].typ), SerializeFields(ValuesOnly(t.value), fs[1..]);
      if a.Ok? && b.Ok? {
        assert items == [items[0]] + items[1..];
        ConsInjective(a.value, b.value, items[0], items[1..]);
      }
    }
  }

  lemma CanonicalEachCons(fs: seq<Field>, items: seq<Option<bytes>>)
    requires |items| == |fs| > 0
    ensures CanonicalEach(fs, items) <==> CanonicalNullable(fs[0].typ, items[0]) && CanonicalEach(fs[1..], items[1..])
  {
    hide CanonicalNullable;
    assert forall i :: 0 < i < |fs| ==> fs[i] == fs[1..][i - 1] && items[i] == items[1..][i - 1];
  }

  lemma {:induction false} FieldsStable(fs: seq<Field>, items: seq<Option<bytes>>)
    requires |items| == |fs|
    ensures FieldsBack(fs, items) <==> CanonicalEach(fs, items)
    decreases fs, 0
  {
    hide NullableBack, CanonicalNullable;
    if items == [] {
      assert ValuesOnly([]) == [];
    } else {
      FieldsBackCons(fs, items);
      CanonicalEachCons(fs, items);
      NullableStable(fs[0].typ, items[0]);
      FieldsStable(fs[1..], items[1..]);
    }
  }

  // ------------------------------------------------------------------ composites

  lemma IntLengthBack(buf: bytes)
    requires ReadIntLength(buf).Ok?
    ensures var n := ReadIntLength(buf).value; buf == WriteIntLength(n.value).value + n.rest
  {
    Pow256Values();
    ToFromSignedBE(buf[..4]);
    assert buf == buf[..4] + buf[4..];
  }

  /** Counted cells come back as the same bytes only if they are the cells that were read. */
  lemma CountedBack(n: nat, k: nat, rest: bytes, items: seq<Option<bytes>>)
    requires n <= I32_MAX && |items| == k && Counted(n, items).Ok?
    ensures Counted(n, items).value == WriteIntLength(n).value + rest
            <==> RawCells(k, rest) == Raw(items, true) && Framed(items, rest)
  {
    hide RawCells, JoinCells, WriteIntLength;
    var head := WriteIntLength(n).value;
    if Counted(n, items).value == head + rest {
      assert (head + JoinCells(items))[|head|..] == JoinCells(items) && (head + rest)[|head|..] == rest;
      RawCellsInvertJoin(items);
    }
  }

  lemma CollectionStable(c: CollectionType, buf: bytes)
    ensures var r := DeserializeCollection(c, buf);
            r.Done? && Serialize(r.value, Collection(false, c)) == Ok(buf) <==> CanonicalCollection(c, buf)
    decreases c, 8
  {
    if ReadIntLength(buf).Ok? {
      var count := ReadIntLength(buf).value;
      if c.Map? {
        MapStable(c, count.value, count.rest, buf);
      } else {
        ListStable(c, count.value, count.rest, buf);
      }
    }
  }

  /** Written with the count that was read, parts give the same bytes iff they are the cells that were read. */
  lemma CountedShape(n: nat, k: nat, rest: bytes, parts: seq<bytes>)
    requires n <= I32_MAX && |parts| == k && RawCells(k, rest).complete
    ensures var items := RawCells(k, rest).items;
            Counted(n, AsItems(parts)) == Ok(WriteIntLength(n).value + rest)
            <==> AsItems(parts) == items && Framed(items, rest)
  {
    hide RawCells, Counted, Framed, WriteIntLength;
    var items := RawCells(k, rest).items;
    FramedCounts(n, items, rest);
    if Counted(n, AsItems(parts)).Ok? {
      CountedBack(n, k, rest, AsItems(parts));
    }
  }

  lemma ListRead(c: CollectionType, n: nat, rest: bytes, buf: bytes)
    requires !c.Map? && ReadIntLength(buf) == Ok(Read(n, rest))
    ensures var r, raw := DeserializeCollection(c, buf), RawCells(n, rest);
            && (r.Done? <==> raw.complete && DecodeAll(c.elem, raw.items).Done?)
            && (r.Done? ==>
                  var l := DecodeAll(c.elem, raw.items).value;
                  r.value == if c.List? then CqlValue.List(l) else CqlValue.Set(l))
  {
    hide ReadIntLength, RawCells, DecodeAll;
  }

  lemma ListWritten(c: CollectionType, l: seq<CqlValue>)
    requires !c.Map?
    ensures var r := Serialize(if c.List? then CqlValue.List(l) else CqlValue.Set(l), Collection(false, c));
            var parts := SerializeAll(l, c.elem);
            r == if parts.Ok? then Counted(|l|, AsItems(parts.value)) else Err(parts.error)
  {
    hide SerializeAll, Counted;
  }

  lemma ListStable(c: CollectionType, n: nat, rest: bytes, buf: bytes)
    requires !c.Map? && ReadIntLength(buf) == Ok(Read(n, rest))
    ensures var r := DeserializeCollection(c, buf);
            r.Done? && Serialize(r.value, Collection(false, c)) == Ok(buf) <==> CanonicalCollection(c, buf)
    decreases c, 7
  {
    hide ReadIntLength, RawCells, DecodeAll, SerializeAll, Counted, CanonicalAll, Framed, Serialize,
      DeserializeCollection;
    var raw := RawCells(n, rest);
    IntLengthBack(buf);
    AllStable(c.elem, raw.items);
    ListRead(c, n, rest, buf);
    if raw.complete && DecodeAll(c.elem, raw.items).Done? {
      var l := DecodeAll(c.elem, raw.items).value;
      ListWritten(c, l);
      if SerializeAll(l, c.elem).Ok? {
        CountedShape(n, n, rest, SerializeAll(l, c.elem).value);
      }
    }
  }

  /** Framed cells can be written with their count. */
  lemma FramedCounts(n: nat, items: seq<Option<bytes>>, rest: bytes)
    requires n <= I32_MAX
    ensures Framed(items, rest) ==> Counted(n, items).Ok?
  {
  }

  lemma MapRead(c: CollectionType, n: nat, rest: bytes, buf: bytes)
    requires c.Map? && ReadIntLength(buf) == Ok(Read(n, rest))
    ensures var r, raw := DeserializeCollection(c, buf), RawCells(2 * n, rest);
            && (r.Done? <==> raw.complete && DecodeEntries(c, raw.items).Done?)
            && (r.Done? ==> r.value == CqlValue.Map(DecodeEntries(c, raw.items).value))
  {
    hide ReadIntLength, RawCells, DecodeEntries;
  }

  lemma MapWritten(c: CollectionType, m: seq<Entry>)
    requires c.Map?
    ensures var r, parts := Serialize(CqlValue.Map(m), Collection(false, c)), SerializeEntries(m, c);
            r == if parts.Ok? then Counted(|m|, AsItems(parts.value)) else Err(parts.error)
  {
    hide SerializeEntries, Counted;
  }

  lemma MapStable(c: CollectionType, n: nat, rest: bytes, buf: bytes)
    requires c.Map? && ReadIntLength(buf) == Ok(Read(n, rest))
    ensures var r := DeserializeCollection(c, buf);
            r.Done? && Serialize(r.value, Collection(false, c)) == Ok(buf) <==> CanonicalCollection(c, buf)
    decreases c, 7
  {
    hide ReadIntLength, RawCells, DecodeEntries, SerializeEntries, Counted, CanonicalEntries, Framed, Serialize,
      DeserializeCollection;
    var raw := RawCells(2 * n, rest);
    IntLengthBack(buf);
    MapRead(c, n, rest, buf);
    if raw.complete {
      EntriesStable(c, raw.items);
      if DecodeEntries(c, raw.items).Done? {
        var m := DecodeEntries(c, raw.items).value;
        MapWritten(c, m);
        if SerializeEntries(m, c).Ok? {
          CountedShape(n, 2 * n, rest, SerializeEntries(m, c).value);
        }
      }
    }
  }

  lemma TupleStable(t: ColumnType, buf: bytes)
    requires t.Tuple?
    ensures var r := DeserializeTuple(t.elems, buf);
            r.Done? && SerializeTuple(r.value, t) == Ok(buf) <==> CanonicalTuple(t.elems, buf)
    decreases t, 0
  {
    hide RawCells, JoinCells, DecodeElems, SerializeElems, CanonicalElems;
    var ts, raw := t.elems, RawCells(|t.elems|, buf);
    if raw.complete {
      ElemsStable(ts, raw.items);
      if DecodeElems(ts, raw.items).Done? {
        var parts := SerializeElems(DecodeElems(ts, raw.items).value, ts);
        if parts.Ok? && Celled(parts.value) == Ok(buf) {
          RawCellsInvertJoin(parts.value);
        }
      }
    }
  }

  /** What is picked up again by name is what was decoded, or a named field was lost. */
  lemma UdtStable(t: ColumnType, buf: bytes)
    requires t.UserDefinedType?
    ensures var r := DeserializeUdt(t.fields, buf);
            r.Done? && SerializeUdt(t.keyspace, t.name, r.value, t) == Ok(buf) <==> CanonicalUdt(t.fields, buf)
    decreases t, 0
  {
    hide RawFields, JoinCells, DecodeFields, SerializeFields, CanonicalEach, PickFields;
    var fs, raw := t.fields, RawFields(|t.fields|, buf);
    if raw.complete {
      FieldsStable(fs, raw.items);
      if DecodeFields(fs, raw.items).Done? {
        var values := DecodeFields(fs, raw.items).value;
        NamesKnown(values, fs);
        var parts := SerializeFields(PickFields(values, fs), fs);
        if parts.Ok? && Celled(parts.value) == Ok(buf) {
          RawCellsInvertJoin(parts.value);
          PickedBack(values, fs, raw.items);
        }
        if forall i :: 0 <= i < |fs| && raw.items[i].Some? ==> UniqueField(fs, i) {
          PickedInPlace(values, fs, raw.items);
        }
      }
    }
  }

  lemma NamesKnown(values: seq<NamedValue>, fs: seq<Field>)
    requires SameNames(values, fs)
    ensures forall i :: 0 <= i < |values| ==> HasField(fs, values[i].name)
  {
    forall i | 0 <= i < |values|
      ensures HasField(fs, values[i].name)
    {
      assert fs[i].name == values[i].name;
    }
  }

  /** A decoded field is null exactly when its cell is. */
  lemma {:induction false} DecodedNulls(fs: seq<Field>, items: seq<Option<bytes>>)
    requires |items| == |fs| && DecodeFields(fs, items).Done?
    ensures forall i :: 0 <= i < |fs| ==> (DecodeFields(fs, items).value[i].value.Some? <==> items[i].Some?)
    decreases fs
  {
    hide Deserialize;
    if items != [] {
      DecodedNulls(fs[1..], items[1..]);
      assert forall i :: 0 < i < |fs| ==>
        items[i] == items[1..][i - 1]
        && DecodeFields(fs, items).value[i] == DecodeFields(fs[1..], items[1..]).value[i - 1];
    }
  }

  lemma {:induction false} WrittenNulls(vs: seq<Option<CqlValue>>, fs: seq<Field>, i: nat)
    requires |vs| == |fs| && SerializeFields(vs, fs).Ok? && i < |fs|
    ensures SerializeFields(vs, fs).value[i].Some? <==> vs[i].Some?
    decreases i
  {
    hide Serialize;
    if i > 0 {
      WrittenNulls(vs[1..], fs[1..], i - 1);
    }
  }

  lemma PickedInPlace(values: seq<NamedValue>, fs: seq<Field>, items: seq<Option<bytes>>)
    requires |items| == |fs| && DecodeFields(fs, items) == Done(values) && SameNames(values, fs)
    requires forall i :: 0 <= i < |fs| && items[i].Some? ==> UniqueField(fs, i)
    ensures PickFields(values, fs) == ValuesOnly(values)
  {
    hide DecodeFields, PickFields;
    DecodedNulls(fs, items);
    forall i | 0 <= i < |values| && values[i].value.Some?
      ensures UniqueName(values, i)
    {
      assert UniqueField(fs, i);
    }
    PickInPlace(values, fs);
    forall i | 0 <= i < |fs|
      ensures PickFields(values, fs)[i] == values[i].value
    {
      assert Named(fs, PickFields(values, fs))[i] == values[i];
    }
  }

  /** Where the picked fields are written as the cells that were read, no two non-null fields share a name. */
  lemma PickedBack(values: seq<NamedValue>, fs: seq<Field>, items: seq<Option<bytes>>)
    requires |items| == |fs| && DecodeFields(fs, items) == Done(values) && SameNames(values, fs)
    requires SerializeFields(PickFields(values, fs), fs) == Ok(items)
    ensures forall i :: 0 <= i < |fs| && items[i].Some? ==> UniqueField(fs, i)
  {
    hide DecodeFields, SerializeFields, PickFields;
    DecodedNulls(fs, items);
    forall i | 0 <= i < |fs|
      ensures values[i].value.Some? <==> PickField(values, fs, i).Some?
    {
      WrittenNulls(PickFields(values, fs), fs, i);
    }
    forall i, j | 0 <= i < |fs| && items[i].Some? && 0 <= j < |fs| && j != i
      ensures fs[j].name != fs[i].name
    {
      if fs[j].name == fs[i].name {
        assert values[j].name == values[i].name;
        PickedAreUnique(values, fs, i, j);
      }
    }
  }

  // --------------------------------------------------------------------- vectors

  lemma AsContents(items: seq<Option<bytes>>, parts: seq<bytes>)
    requires AsItems(parts) == items
    ensures Contents(items) == parts
  {
    assert forall i :: 0 <= i < |items| ==> items[i] == Some(parts[i]);
  }

  lemma VariableStable(e: ColumnType, d: u16, buf: bytes)
    requires TypeSize(e).None? && !SizeOverflows(e)
    ensures var r := DeserializeVector(e, d, buf);
            r.Done? && SerializeVec(r.value, ColumnType.Vector(e, d)) == Ok(buf) <==> CanonicalVector(e, d, buf)
    decreases e, 7
  {
    hide RawVariable, JoinVariable, DecodeAll, SerializeAll, CanonicalAll, TypeSize, SizeOverflows;
    var raw := RawVariable(d, buf);
    AllStable(e, raw.items);
    if raw.complete && DecodeAll(e, raw.items).Done? {
      var parts := SerializeAll(DecodeAll(e, raw.items).value, e);
      if AllBack(e, raw.items) {
        AsContents(raw.items, parts.value);
      }
      if parts.Ok? && LengthPrefixed(parts.value) == Ok(buf) {
        VariableBack(e, d, buf, parts.value);
      }
    }
  }

  /** If the parts are written as the buffer they were read from, they are the parts that were read. */
  lemma VariableBack(e: ColumnType, d: nat, buf: bytes, parts: seq<bytes>)
    requires |parts| == d && LengthPrefixed(parts) == Ok(buf) && DecodeAll(e, RawVariable(d, buf).items).Done?
    ensures AsItems(parts) == RawVariable(d, buf).items
  {
    hide RawVariable, JoinVariable, DecodeAll;
    VariableFraming(parts);
    if d > 0 && parts[d - 1] == [] {
      NullIsNoElement(e, CutLast(parts), d - 1);
    }
  }

  lemma {:induction false} FixedFills(size: nat, n: nat, buf: bytes)
    requires var raw := RawFixed(size, n, buf);
             raw.complete && forall i :: 0 <= i < n ==> raw.items[i].Some?
    ensures Concat(Contents(RawFixed(size, n, buf).items)) <= buf
    ensures |Concat(Contents(RawFixed(size, n, buf).items))| == size * n
    decreases n
  {
    var raw := RawFixed(size, n, buf);
    if n > 0 {
      var item := ReadNBytes(size, buf).value;
      assert raw.items[0] == item.value;
      assert raw.items[1..] == RawFixed(size, n - 1, item.rest).items;
      FixedFills(size, n - 1, item.rest);
      assert Contents(raw.items)[1..] == Contents(raw.items[1..]);
      assert size * n == size + size * (n - 1);
    }
  }

  lemma FixedStable(e: ColumnType, d: u16, buf: bytes, size: nat)
    requires TypeSize(e) == Some(size) && !SizeOverflows(e) && buf != []
    ensures var r := DeserializeVector(e, d, buf);
            r.Done? && SerializeVec(r.value, ColumnType.Vector(e, d)) == Ok(buf) <==> CanonicalVector(e, d, buf)
    decreases e, 7
  {
    hide RawFixed, Concat, DecodeAll, SerializeAll, CanonicalAll, TypeSize, SizeOverflows;
    var raw := RawFixed(size, d, buf);
    AllStable(e, raw.items);
    if raw.complete && DecodeAll(e, raw.items).Done? {
      var l := DecodeAll(e, raw.items).value;
      AllThere(e, raw.items);
      FixedFills(size, d, buf);
      var parts := SerializeAll(l, e);
      if AllBack(e, raw.items) {
        AsContents(raw.items, parts.value);
      }
      if parts.Ok? && Concat(parts.value) == buf {
        FixedBack(e, l, size, buf);
      }
    }
  }

  lemma AllThere(e: ColumnType, items: seq<Option<bytes>>)
    requires DecodeAll(e, items).Done?
    ensures forall i :: 0 <= i < |items| ==> items[i].Some?
  {
    hide DecodeAll;
    forall i | 0 <= i < |items|
      ensures items[i].Some?
    {
      if items[i].None? {
        NullIsNoElement(e, items, i);
      }
    }
  }

  lemma FixedBack(e: ColumnType, l: seq<CqlValue>, size: nat, buf: bytes)
    requires TypeSize(e) == Some(size) && SerializeAll(l, e).Ok? && Concat(SerializeAll(l, e).value) == buf != []
    requires DecodeAll(e, RawFixed(size, |l|, buf).items).Done? && RawFixed(size, |l|, buf).complete
    ensures AsItems(SerializeAll(l, e).value) == RawFixed(size, |l|, buf).items && |buf| == size * |l|
  {
    hide RawFixed, Concat, DecodeAll, SerializeAll, Serialize, TypeSize;
    var parts := SerializeAll(l, e).value;
    forall i | 0 <= i < |parts|
      ensures |parts[i]| <= size
    {
      PartAt(l, e, i);
      FixedLength(l[i], e, size);
    }
    NotNothing(parts);
    AllThere(e, RawFixed(size, |l|, buf).items);
    FixedFraming(parts, size);
    ConcatBound(parts, size);
  }

  lemma NotNothing(parts: seq<bytes>)
    requires Concat(parts) != []
    ensures parts != []
  {
  }

  // ------------------------------------------------------------------ the theorem

  lemma EmptyTop(t: ColumnType)
    requires !EmptyIsOrdinary(t)
    ensures Stable(t, []) <==> SupportsEmpty(t)
  {
  }

  lemma UdtTop(t: ColumnType, buf: bytes)
    requires t.UserDefinedType? && buf != []
    ensures Stable(t, buf) <==> CanonicalUdt(t.fields, buf)
    decreases t, 1
  {
    hide DeserializeUdt, SerializeUdt, CanonicalUdt;
    UdtStable(t, buf);
  }

  lemma TupleTop(t: ColumnType, buf: bytes)
    requires t.Tuple? && buf != []
    ensures Stable(t, buf) <==> CanonicalTuple(t.elems, buf)
    decreases t, 1
  {
    hide DeserializeTuple, SerializeTuple, CanonicalTuple;
    TupleStable(t, buf);
  }

  lemma NativeTop(n: NativeType, buf: bytes)
    requires buf != [] || EmptyIsOrdinary(Native(n))
    ensures Stable(Native(n), buf) <==> CanonicalNative(n, buf)
  {
    hide DeserializeNative, SerializeNative, CanonicalNative;
    if DeserializeNative(n, buf).Done? {
      NativeStable(n, buf);
      NativeIsScalar(n, buf);
      ScalarIsNative(DeserializeNative(n, buf).value, n);
    } else {
      NotCanonical(n, buf);
    }
  }

  lemma NotCanonical(n: NativeType, buf: bytes)
    requires !DeserializeNative(n, buf).Done?
    ensures !CanonicalNative(n, buf)
  {
    hide DeserializeNative;
  }

  lemma CollectionTop(frozen: bool, c: CollectionType, buf: bytes)
    requires buf != []
    ensures Stable(Collection(frozen, c), buf) <==> !frozen && CanonicalCollection(c, buf)
    decreases c, 9
  {
    hide DeserializeCollection, CanonicalCollection;
    CollectionStable(c, buf);
  }

  lemma VectorTop(e: ColumnType, d: u16, buf: bytes)
    requires buf != []
    ensures Stable(ColumnType.Vector(e, d), buf) <==> !SizeOverflows(e) && CanonicalVector(e, d, buf)
    decreases e, 8
  {
    hide DeserializeVector, SerializeVec, CanonicalVector, TypeSize, SizeOverflows;
    if !SizeOverflows(e) {
      if TypeSize(e).Some? {
        FixedStable(e, d, buf, TypeSize(e).value);
      } else {
        VariableStable(e, d, buf);
      }
    }
  }

  /** Decoding and serializing again gives the same bytes exactly when they are canonical. */
  lemma {:induction false} CanonicalExactlyWhen(t: ColumnType, buf: bytes)
    ensures Stable(t, buf) <==> Canonical(t, buf)
    decreases t, 5
  {
    hide Stable, SizeOverflows, CanonicalNative, CanonicalCollection, CanonicalVector, CanonicalUdt, CanonicalTuple;
    if buf == [] && !EmptyIsOrdinary(t) {
      EmptyTop(t);
    } else {
      match t
      case Native(n) => NativeTop(n, buf);
      case Collection(frozen, c) => CollectionTop(frozen, c, buf);
      case Vector(e, d) => VectorTop(e, d, buf);
      case UserDefinedType(_, _, _, _) => UdtTop(t, buf);
      case Tuple(_) => TupleTop(t, buf);
    }
  }

  /** Any byte but zero decodes to true, and true is written as one. */
  lemma BooleanTwo()
    ensures Deserialize(Native(NativeType.Boolean), [2]).Done? && !Stable(Native(NativeType.Boolean), [2])
  {
    hide Stable;
    CanonicalExactlyWhen(Native(NativeType.Boolean), [2]);
  }
}
