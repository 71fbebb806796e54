/**
  How vectors lie in their bytes: elements of eight native types one after the other,
  all others behind their lengths. Models `ColumnType::type_size` of
  scylla-cql/src/frame/response/result.rs through what vectors are read and written as.
 */
module VectorLayout {
  import opened Arith
  import opened Wire
  import opened Vint
  import opened CqlTypes
  import opened Cells
  import opened ValueCodec
  import opened NoPanic

  /** The native types that vectors lay out without lengths, and their sizes. */
  predicate FixedWidth(n: NativeType, w: nat) {
    || (n.Boolean? && w == 1)
    || (n.Float? && w == 4)
    || (n.Int? && w == 4)
    || (n.Double? && w == 8)
    || (n.BigInt? && w == 8)
    || (n.Timestamp? && w == 8)
    || (n.Uuid? && w == 16)
    || (n.Timeuuid? && w == 16)
  }

  /** The `i`-th piece of `w` bytes. */
  function Slot(buf: bytes, w: nat, i: nat): (s: bytes) {
    if i * w <= (i + 1) * w <= |buf| then buf[i * w..(i + 1) * w] else []
  }

  // -------------------------------------------------------------------- reading

  /** Decoding the elements is decoding each of them. */
  lemma {:induction false} AllMeaning(e: ColumnType, items: seq<Option<bytes>>)
    ensures var r := DecodeAll(e, items);
            && (r.Done? <==> forall i :: 0 <= i < |items| ==> items[i].Some? && Deserialize(e, items[i].value).Done?)
            && (r.Done? ==>
                  && |r.value| == |items|
                  && forall i :: 0 <= i < |items| ==> r.value[i] == Deserialize(e, items[i].value).value)
    decreases |items|
  {
    hide Deserialize;
    if items != [] {
      AllMeaning(e, items[1..]);
      assert forall i :: 0 < i < |items| ==> items[i] == items[1..][i - 1];
      assert items[0].Some? && Deserialize(e, items[0].value).Done? <==> DecodeValue(e, items[0]).Done?;
    }
  }

  lemma SlotShift(buf: bytes, w: nat, i: nat)
    requires w <= |buf|
    ensures Slot(buf[w..], w, i) == Slot(buf, w, i + 1)
  {
    assert (i + 1) * w == i * w + w && (i + 2) * w == i * w + w + w;
  }

  lemma {:induction false} FixedSlots(w: nat, d: nat, buf: bytes)
    requires w > 0 && w * d <= |buf|
    ensures var raw := RawFixed(w, d, buf);
            raw.complete && forall i :: 0 <= i < d ==> raw.items[i] == Some(Slot(buf, w, i))
    decreases d
  {
    hide Slot;
    if d > 0 {
      assert w * d == w + w * (d - 1);
      FixedSlots(w, d - 1, buf[w..]);
      var raw, tail := RawFixed(w, d, buf), RawFixed(w, d - 1, buf[w..]);
      FirstSlot(buf, w);
      forall i | 0 <= i < d
        ensures raw.items[i] == Some(Slot(buf, w, i))
      {
        if i > 0 {
          SlotShift(buf, w, i - 1);
          assert raw.items[i] == tail.items[i - 1];
        }
      }
    }
  }

  lemma FirstSlot(buf: bytes, w: nat)
    requires 0 < w <= |buf|
    ensures ReadNBytes(w, buf) == Ok(Read(Some(Slot(buf, w, 0)), buf[w..]))
  {
  }

  lemma WidthIsSize(n: NativeType, w: nat)
    requires FixedWidth(n, w)
    ensures TypeSize(Native(n)) == Some(w) && 0 < w && !SizeOverflows(Native(n))
  {
  }

  lemma SlotDecodes(n: NativeType, w: nat, buf: bytes, i: nat)
    requires 0 < w && (i + 1) * w <= |buf|
    ensures |Slot(buf, w, i)| == w && Deserialize(Native(n), Slot(buf, w, i)) == DeserializeNative(n, Slot(buf, w, i))
  {
    hide DeserializeNative;
    assert (i + 1) * w == i * w + w;
  }

  lemma SlotInside(w: nat, d: nat, i: nat, size: nat)
    requires i < d && w * d <= size
    ensures (i + 1) * w <= size
  {
    MulMonotone(i + 1, d, w);
    assert d * w == w * d;
  }

  /** A vector of such a type holds what each piece decodes to; bytes after them are ignored. */
  lemma FixedVectorMeaning(n: NativeType, w: nat, d: u16, buf: bytes)
    requires FixedWidth(n, w) && d > 0 && buf != []
    ensures var r := Deserialize(ColumnType.Vector(Native(n), d), buf);
            && (|buf| < w * d ==> r == Failed)
            && (|buf| >= w * d ==>
                  && !r.Panicked?
                  && (r.Done? <==> forall i :: 0 <= i < d ==> DeserializeNative(n, Slot(buf, w, i)).Done?)
                  && (r.Done? ==>
                        && r.value.Vector? && |r.value.items| == d
                        && forall i :: 0 <= i < d ==> r.value.items[i] == DeserializeNative(n, Slot(buf, w, i)).value))
  {
    hide Slot, DeserializeNative, RawFixed, DecodeAll, FixedWidth, TypeSize, SizeOverflows;
    var e := Native(n);
    WidthIsSize(n, w);
    var raw := RawFixed(w, d, buf);
    assert DeserializeVector(e, d, buf) == Finish(DecodeAll(e, raw.items), raw.complete);
    FixedCannotPanic(e, raw.items);
    AllMeaning(e, raw.items);
    if |buf| >= w * d {
      FixedSlots(w, d, buf);
      forall i | 0 <= i < d
        ensures Deserialize(e, Slot(buf, w, i)) == DeserializeNative(n, Slot(buf, w, i))
      {
        SlotInside(w, d, i, |buf|);
        SlotDecodes(n, w, buf, i);
      }
    } else if raw.complete && DecodeAll(e, raw.items).Done? {
      RawFixedNeeds(w, d, buf);
    }
  }

  // -------------------------------------------------------------------- writing

  /** Types whose elements carry their own lengths; a vector is as its elements are. */
  predicate CarriesLength(e: ColumnType) {
    match e
    case Native(n) => forall w: nat :: w in {1, 4, 8, 16} ==> !FixedWidth(n, w)
    case Vector(f, _) => CarriesLength(f)
    case _ => true
  }

  lemma {:induction false} LengthIsNoSize(e: ColumnType)
    requires CarriesLength(e)
    ensures TypeSize(e).None? && !SizeOverflows(e)
  {
    match e
    case Native(n) =>
      assert !FixedWidth(n, 1) && !FixedWidth(n, 4) && !FixedWidth(n, 8) && !FixedWidth(n, 16);
    case Vector(f, _) => LengthIsNoSize(f);
    case _ =>
  }

  function VectorOf(l: seq<CqlValue>, e: ColumnType): (r: SerResult)
    requires |l| <= U16_MAX
  {
    Serialize(CqlValue.Vector(l), ColumnType.Vector(e, |l|))
  }

  lemma WrittenParts(l: seq<CqlValue>, e: ColumnType)
    requires |l| <= U16_MAX && !SizeOverflows(e)
    ensures var parts := SerializeAll(l, e);
            VectorOf(l, e) == if parts.Err? then Err(parts.error)
                              else if TypeSize(e).Some? then Ok(Concat(parts.value)) else LengthPrefixed(parts.value)
  {
    hide SerializeAll, LengthPrefixed, Concat, TypeSize;
    var t := ColumnType.Vector(e, |l|);
    assert Serialize(CqlValue.Vector(l), t) == SerializeVec(l, t);
  }

  lemma PartsStep(v: CqlValue, l: seq<CqlValue>, e: ColumnType)
    requires Serialize(v, e).Ok? && SerializeAll(l, e).Ok?
    ensures SerializeAll([v] + l, e) == Ok([Serialize(v, e).value] + SerializeAll(l, e).value)
  {
    hide Serialize;
    assert ([v] + l)[0] == v && ([v] + l)[1..] == l;
  }

  lemma EmptyVectorWritten(e: ColumnType)
    requires !SizeOverflows(e)
    ensures VectorOf([], e) == Ok([])
  {
    hide VectorOf, TypeSize, SizeOverflows;
    WrittenParts([], e);
    assert SerializeAll([], e) == Ok([]);
  }

  /** Elements of the eight types are written one after the other. */
  lemma FixedVectorWritten(n: NativeType, w: nat, v: CqlValue, l: seq<CqlValue>)
    requires FixedWidth(n, w) && |l| < U16_MAX && Serialize(v, Native(n)).Ok? && VectorOf(l, Native(n)).Ok?
    ensures VectorOf([v] + l, Native(n)) == Ok(Serialize(v, Native(n)).value + VectorOf(l, Native(n)).value)
  {
    hide VectorOf, Serialize, FixedWidth, TypeSize, SizeOverflows;
    var e := Native(n);
    WidthIsSize(n, w);
    WrittenParts(l, e);
    WrittenParts([v] + l, e);
    PartsStep(v, l, e);
    var p, parts := Serialize(v, e).value, SerializeAll(l, e).value;
    assert ([p] + parts)[1..] == parts;
  }

  /** All others behind their lengths as vints. */
  lemma VariableVectorWritten(e: ColumnType, v: CqlValue, l: seq<CqlValue>)
    requires CarriesLength(e) && |l| < U16_MAX && Serialize(v, e).Ok? && VectorOf(l, e).Ok?
    requires |Serialize(v, e).value| < TWO64
    ensures var p := Serialize(v, e).value;
            VectorOf([v] + l, e) == Ok(UnsignedVintEncode(|p|) + p + VectorOf(l, e).value)
  {
    hide VectorOf, Serialize, CarriesLength, TypeSize, SizeOverflows, UnsignedVintEncode;
    LengthIsNoSize(e);
    WrittenParts(l, e);
    WrittenParts([v] + l, e);
    PartsStep(v, l, e);
    PrefixedStep(Serialize(v, e).value, SerializeAll(l, e).value);
  }

  lemma PrefixedStep(p: bytes, parts: seq<bytes>)
    requires |p| < TWO64 && LengthPrefixed(parts).Ok?
    ensures LengthPrefixed([p] + parts) == Ok(UnsignedVintEncode(|p|) + p + LengthPrefixed(parts).value)
  {
    hide UnsignedVintEncode;
    var all := [p] + parts;
    assert all[1..] == parts && forall i :: 0 <= i < |all| ==> FitsWord(all[i]);
    assert UnsignedVintEncode(|p|) + (p + JoinVariable(parts)) == UnsignedVintEncode(|p|) + p + JoinVariable(parts);
  }
}
