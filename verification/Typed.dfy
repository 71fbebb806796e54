/**
  Decoding into statically typed targets, after a type check that is meant to keep
  the decoder out of its `unreachable!` arms. Models the `type_check` and
  `deserialize` functions of scylla-cql/src/deserialize/value.rs and of the tuple
  rows of scylla-cql/src/deserialize/row.rs.
 */
module Typed {
  import opened Wire
  import opened CqlTypes
  import opened Cells
  import opened ValueCodec
  import opened NoPanic
  import opened DecodeSteps

  /** A Rust type to decode into. */
  datatype Target =
    | Dynamic
    | Scalar(natives: set<NativeType>)
    | Nullable(inner: Target)
    | MaybeEmpty(natives: set<NativeType>)
    | VecOf(elem: Target)
    | SetOf(elem: Target)
    | MapOf(key: Target, value: Target)
    | TupleOf(elems: seq<Target>)

  datatype Decoded =
    | Value(value: CqlValue)
    | Null
    | EmptyValue
    | Several(items: seq<Decoded>)
    | Pairs(pairs: seq<DecodedPair>)

  datatype DecodedPair = DecodedPair(key: Decoded, value: Decoded)

  // ---------------------------------------------------------------- type checks

  predicate TypeCheck(x: Target, t: ColumnType) {
    match x
    case Dynamic => true
    case Scalar(natives) => t.Native? && t.native in natives
    case Nullable(y) => TypeCheck(y, t)
    case MaybeEmpty(natives) => t.Native? && t.native in natives
    case VecOf(y) =>
      || (t.Collection? && !t.frozen && !t.typ.Map? && TypeCheck(y, t.typ.elem))
      || (t.Vector? && TypeCheck(y, t.elem))
    case SetOf(y) => t.Collection? && !t.frozen && t.typ.Set? && TypeCheck(y, t.typ.elem)
    case MapOf(k, v) =>
      t.Collection? && !t.frozen && t.typ.Map? && TypeCheck(k, t.typ.key) && TypeCheck(v, t.typ.value)
    case TupleOf(ys) =>
      t.Tuple? && |t.elems| == |ys| && forall i :: 0 <= i < |ys| ==> TypeCheck(ys[i], t.elems[i])
  }

  // ------------------------------------------------------------------- decoding

  function AsPlain(r: Outcome<CqlValue>): (o: Outcome<Decoded>) {
    var v :- r;
    Done(Value(v))
  }

  function AsSeveral(r: Outcome<seq<Decoded>>): (o: Outcome<Decoded>) {
    var l :- r;
    Done(Several(l))
  }

  /** A scalar of a type that its check refuses is not modelled beyond that it does not panic. */
  function DecodeScalar(natives: set<NativeType>, t: ColumnType, v: Option<bytes>): (r: Outcome<Decoded>)
    ensures !r.Panicked?
  {
    if v.None? || !t.Native? || t.native !in natives then Failed
    else AsPlain(DeserializeNative(t.native, v.value))
  }

  function DecodeAs(x: Target, t: ColumnType, v: Option<bytes>): (r: Outcome<Decoded>)
    decreases x, 3
  {
    match x
    case Dynamic => AsPlain(DecodeValue(t, v))
    case Scalar(natives) => DecodeScalar(natives, t, v)
    case Nullable(y) => if v.None? then Done(Null) else DecodeAs(y, t, v)
    case MaybeEmpty(natives) => if v == Some([]) then Done(EmptyValue) else DecodeScalar(natives, t, v)
    case VecOf(y) =>
      if t.Collection? && !t.typ.Map? then DecodeList(y, t, v)
      else if t.Vector? then
        if v.None? then Failed
        else if SizeOverflows(t.elem) then Panicked
        else
          var raw := RawVector(t.elem, t.dimensions, v.value);
          AsSeveral(Finish(DecodeItems(y, t.elem, raw.items), raw.complete))
      else Panicked
    case SetOf(y) => DecodeList(y, t, v)
    case MapOf(_, _) => DecodeMapAs(x, t, v)
    case TupleOf(ys) =>
      if !t.Tuple? || |t.elems| != |ys| then Panicked
      else if v.None? then Failed
      else
        var raw := RawCells(|ys|, v.value);
        AsSeveral(Finish(DecodeEach(ys, t.elems, raw.items), raw.complete))
  }

  /** `ListlikeIterator::deserialize` and collecting it; null is empty. */
  function DecodeList(y: Target, t: ColumnType, v: Option<bytes>): (r: Outcome<Decoded>)
    decreases y, 5
  {
    if !t.Collection? || t.frozen || t.typ.Map? then Panicked
    else if v.None? then Done(Several([]))
    else
      match ReadIntLength(v.value)
      case Err(_) => Failed
      case Ok(count) =>
        var raw := RawCells(count.value, count.rest);
        AsSeveral(Finish(DecodeItems(y, t.typ.elem, raw.items), raw.complete))
  }

  function DecodeMapAs(x: Target, t: ColumnType, v: Option<bytes>): (r: Outcome<Decoded>)
    requires x.MapOf?
    decreases x, 2
  {
    if !t.Collection? || t.frozen || !t.typ.Map? then Panicked
    else if v.None? then Done(Pairs([]))
    else
      match ReadIntLength(v.value)
      case Err(_) => Failed
      case Ok(count) =>
        var raw := RawCells(2 * count.value, count.rest);
        var ps :- Finish(DecodePairs(x, t.typ, raw.items), raw.complete);
        Done(Pairs(ps))
  }

  function DecodeItems(y: Target, e: ColumnType, items: seq<Option<bytes>>): (r: Outcome<seq<Decoded>>)
    decreases y, 4, |items|
  {
    if items == [] then Done([])
    else
      var head :- DecodeAs(y, e, items[0]);
      var tail :- DecodeItems(y, e, items[1..]);
      Done([head] + tail)
  }

  function DecodePairs(x: Target, c: CollectionType, items: seq<Option<bytes>>): (r: Outcome<seq<DecodedPair>>)
    requires x.MapOf? && c.Map?
    decreases x, 1, |items|
  {
    if |items| < 2 then Done([])
    else
      var key :- DecodeAs(x.key, c.key, items[0]);
      var value :- DecodeAs(x.value, c.value, items[1]);
      var tail :- DecodePairs(x, c, items[2..]);
      Done([DecodedPair(key, value)] + tail)
  }

  function DecodeEach(ys: seq<Target>, ts: seq<ColumnType>, items: seq<Option<bytes>>): (r: Outcome<seq<Decoded>>)
    requires |items| <= |ys| == |ts|
    decreases ys
  {
    if items == [] then Done([])
    else
      var head :- DecodeAs(ys[0], ts[0], items[0]);
      var tail :- DecodeEach(ys[1..], ts[1..], items[1..]);
      Done([head] + tail)
  }

  // ------------------------------------------------------------------- no panics

  /** No dynamic part of the target meets a type that can panic and no vector has elements of an overflowing size. */
  predicate Safe(x: Target, t: ColumnType)
    requires TypeCheck(x, t)
  {
    match x
    case Dynamic => !CanPanic(t)
    case Scalar(_) => true
    case Nullable(y) => Safe(y, t)
    case MaybeEmpty(_) => true
    case VecOf(y) =>
      if t.Vector? then !SizeOverflows(t.elem) && Safe(y, t.elem) else Safe(y, t.typ.elem)
    case SetOf(y) => Safe(y, t.typ.elem)
    case MapOf(k, v) => Safe(k, t.typ.key) && Safe(v, t.typ.value)
    case TupleOf(ys) => forall i :: 0 <= i < |ys| ==> Safe(ys[i], t.elems[i])
  }

  /** A checked target never panics, whatever the bytes. */
  lemma {:induction false} TypedNeverPanics(x: Target, t: ColumnType, v: Option<bytes>)
    requires TypeCheck(x, t) && Safe(x, t)
    ensures !DecodeAs(x, t, v).Panicked?
    decreases x, 0
  {
    hide Deserialize, DeserializeNative, CanPanic;
    match x
    case Dynamic =>
      if v.Some? {
        NeverPanics(t, v.value);
      }
    case Scalar(_) =>
    case Nullable(y) => TypedNeverPanics(y, t, v);
    case MaybeEmpty(_) =>
    case VecOf(y) =>
      if t.Vector? && v.Some? {
        ItemsNeverPanic(y, t.elem, RawVector(t.elem, t.dimensions, v.value).items);
      } else if t.Collection? {
        ListNeverPanics(y, t, v);
      }
    case SetOf(y) => ListNeverPanics(y, t, v);
    case MapOf(_, _) => MapNeverPanics(x, t, v);
    case TupleOf(ys) =>
      if v.Some? {
        EachNeverPanics(ys, t.elems, RawCells(|ys|, v.value).items);
      }
  }

  lemma ListNeverPanics(y: Target, t: ColumnType, v: Option<bytes>)
    requires t.Collection? && !t.frozen && !t.typ.Map? && TypeCheck(y, t.typ.elem) && Safe(y, t.typ.elem)
    ensures !DecodeList(y, t, v).Panicked?
    decreases y, 2
  {
    hide Safe, TypeCheck, ReadIntLength;
    if v.Some? && ReadIntLength(v.value).Ok? {
      var count := ReadIntLength(v.value).value;
      ItemsNeverPanic(y, t.typ.elem, RawCells(count.value, count.rest).items);
    }
  }

  lemma MapNeverPanics(x: Target, t: ColumnType, v: Option<bytes>)
    requires x.MapOf? && TypeCheck(x, t) && Safe(x, t)
    ensures !DecodeMapAs(x, t, v).Panicked?
    decreases x, 0, 0
  {
    hide ReadIntLength;
    if v.Some? && ReadIntLength(v.value).Ok? {
      var count := ReadIntLength(v.value).value;
      PairsNeverPanic(x, t.typ, RawCells(2 * count.value, count.rest).items);
    }
  }

  lemma {:induction false} ItemsNeverPanic(y: Target, e: ColumnType, items: seq<Option<bytes>>)
    requires TypeCheck(y, e) && Safe(y, e)
    ensures !DecodeItems(y, e, items).Panicked?
    decreases y, 1, |items|
  {
    hide Safe, TypeCheck, DecodeAs;
    if items != [] {
      TypedNeverPanics(y, e, items[0]);
      ItemsNeverPanic(y, e, items[1..]);
    }
  }

  lemma {:induction false} PairsNeverPanic(x: Target, c: CollectionType, items: seq<Option<bytes>>)
    requires x.MapOf? && c.Map? && TypeCheck(x.key, c.key) && TypeCheck(x.value, c.value)
    requires Safe(x.key, c.key) && Safe(x.value, c.value)
    ensures !DecodePairs(x, c, items).Panicked?
    decreases x, 0, 0, |items|
  {
    hide Safe, TypeCheck, DecodeAs;
    if |items| >= 2 {
      TypedNeverPanics(x.key, c.key, items[0]);
      TypedNeverPanics(x.value, c.value, items[1]);
      PairsNeverPanic(x, c, items[2..]);
    }
  }

  lemma {:induction false} EachNeverPanics(ys: seq<Target>, ts: seq<ColumnType>, items: seq<Option<bytes>>)
    requires |items| <= |ys| == |ts|
    requires forall i :: 0 <= i < |ys| ==> TypeCheck(ys[i], ts[i]) && Safe(ys[i], ts[i])
    ensures !DecodeEach(ys, ts, items).Panicked?
    decreases ys
  {
    hide Safe, TypeCheck, DecodeAs;
    if items != [] {
      TypedNeverPanics(ys[0], ts[0], items[0]);
      EachNeverPanics(ys[1..], ts[1..], items[1..]);
    }
  }

  /** The dynamic target passes the check for a frozen collection and panics on any byte. */
  lemma FrozenPassesCheckAndPanics(c: CollectionType, b: byte)
    ensures TypeCheck(Dynamic, Collection(true, c)) && DecodeAs(Dynamic, Collection(true, c), Some([b])).Panicked?
  {
    assert Deserialize(Collection(true, c), [b]).Panicked?;
  }

  // --------------------------------------------------------------- typed rows

  /** Reads one column per target; too few or too many columns panic. */
  function DecodeRowAs(xs: seq<Target>, ts: seq<ColumnType>, buf: bytes): (r: Outcome<seq<Decoded>>)
    decreases |xs|
  {
    if xs == [] || ts == [] then (if xs == [] && ts == [] then Done([]) else Panicked)
    else
      match ReadBytesOpt(buf)
      case Err(_) => Failed
      case Ok(cell) => Chain(DecodeAs(xs[0], ts[0], cell.value), DecodeRowAs(xs[1..], ts[1..], cell.rest))
  }

  predicate RowTypeCheck(xs: seq<Target>, ts: seq<ColumnType>) {
    |xs| == |ts| && forall i :: 0 <= i < |xs| ==> TypeCheck(xs[i], ts[i])
  }

  lemma {:induction false} RowNeverPanics(xs: seq<Target>, ts: seq<ColumnType>, buf: bytes)
    requires RowTypeCheck(xs, ts) && forall i :: 0 <= i < |xs| ==> Safe(xs[i], ts[i])
    ensures !DecodeRowAs(xs, ts, buf).Panicked?
    decreases |xs|
  {
    hide Safe, TypeCheck, DecodeAs, ReadBytesOpt;
    if xs != [] && ReadBytesOpt(buf).Ok? {
      var cell := ReadBytesOpt(buf).value;
      TypedNeverPanics(xs[0], ts[0], cell.value);
      RowNeverPanics(xs[1..], ts[1..], cell.rest);
    }
  }

  /** A row of the wrong width is never decoded. */
  lemma {:induction false} WrongWidthNeverDecodes(xs: seq<Target>, ts: seq<ColumnType>, buf: bytes)
    requires |xs| != |ts|
    ensures !DecodeRowAs(xs, ts, buf).Done?
    decreases |xs|
  {
    hide DecodeAs, ReadBytesOpt;
    if xs != [] && ts != [] && ReadBytesOpt(buf).Ok? {
      WrongWidthNeverDecodes(xs[1..], ts[1..], ReadBytesOpt(buf).value.rest);
    }
  }

  // ------------------------------------------------------ typed and dynamic agree

  function Values(l: seq<CqlValue>): (r: seq<Decoded>)
    ensures |r| == |l| && forall i :: 0 <= i < |l| ==> r[i] == Value(l[i])
  {
    seq(|l|, i requires 0 <= i < |l| => Value(l[i]))
  }

  function ValuesOf(r: Outcome<seq<CqlValue>>): (o: Outcome<seq<Decoded>>) {
    var l :- r;
    Done(Values(l))
  }

  lemma {:induction false} DynamicItems(e: ColumnType, items: seq<Option<bytes>>)
    ensures DecodeItems(Dynamic, e, items) == ValuesOf(DecodeAll(e, items))
    decreases |items|
  {
    hide Deserialize;
    if items == [] {
      assert Values([]) == [];
    } else {
      DynamicItems(e, items[1..]);
      var head, tail := DecodeValue(e, items[0]), DecodeAll(e, items[1..]);
      if head.Done? && tail.Done? {
        assert Values([head.value] + tail.value) == [Value(head.value)] + Values(tail.value);
      }
    }
  }

  /** A `Vec` of dynamic values holds what the dynamic list, set or vector would. */
  lemma VecAgreesWithDynamic(t: ColumnType, buf: bytes)
    requires buf != [] && TypeCheck(VecOf(Dynamic), t)
    ensures var typed, dynamic := DecodeAs(VecOf(Dynamic), t, Some(buf)), Deserialize(t, buf);
            && (typed.Done? <==> dynamic.Done?) && (typed.Panicked? <==> dynamic.Panicked?)
            && (typed.Done? ==>
                  && (dynamic.value.List? || dynamic.value.Set? || dynamic.value.Vector?)
                  && typed.value == Several(Values(dynamic.value.items)))
  {
    hide DecodeAll, DecodeItems, RawCells, RawVector, ReadIntLength;
    if t.Vector? {
      var raw := RawVector(t.elem, t.dimensions, buf);
      DynamicItems(t.elem, raw.items);
      assert DeserializeVector(t.elem, t.dimensions, buf) == Finish(DecodeAll(t.elem, raw.items), raw.complete);
    } else if ReadIntLength(buf).Ok? {
      var count := ReadIntLength(buf).value;
      var raw := RawCells(count.value, count.rest);
      DynamicItems(t.typ.elem, raw.items);
      assert DecodeAs(VecOf(Dynamic), t, Some(buf)) == DecodeList(Dynamic, t, Some(buf));
      assert DeserializeCells(t.typ.elem, count.value, count.rest)
          == Finish(DecodeAll(t.typ.elem, raw.items), raw.complete);
      assert Deserialize(t, buf) == DeserializeCollection(t.typ, buf);
    }
  }

  function EntryPairs(m: seq<Entry>): (r: seq<DecodedPair>)
    ensures |r| == |m| && forall i :: 0 <= i < |m| ==> r[i] == DecodedPair(Value(m[i].key), Value(m[i].value))
  {
    seq(|m|, i requires 0 <= i < |m| => DecodedPair(Value(m[i].key), Value(m[i].value)))
  }

  function PairsOf(r: Outcome<seq<Entry>>): (o: Outcome<seq<DecodedPair>>) {
    var m :- r;
    Done(EntryPairs(m))
  }

  lemma {:induction false} DynamicPairs(c: CollectionType, items: seq<Option<bytes>>)
    requires c.Map?
    ensures DecodePairs(MapOf(Dynamic, Dynamic), c, items) == PairsOf(DecodeEntries(c, items))
    decreases |items|
  {
    hide Deserialize;
    if |items| < 2 {
      assert EntryPairs([]) == [];
    } else {
      DynamicPairs(c, items[2..]);
      var k, v, tail := DecodeValue(c.key, items[0]), DecodeValue(c.value, items[1]), DecodeEntries(c, items[2..]);
      if k.Done? && v.Done? && tail.Done? {
        assert EntryPairs([Entry(k.value, v.value)] + tail.value)
            == [DecodedPair(Value(k.value), Value(v.value))] + EntryPairs(tail.value);
      }
    }
  }

  /** A map of dynamic values holds the entries of the dynamic map. */
  lemma MapAgreesWithDynamic(t: ColumnType, buf: bytes)
    requires buf != [] && TypeCheck(MapOf(Dynamic, Dynamic), t)
    ensures var typed, dynamic := DecodeAs(MapOf(Dynamic, Dynamic), t, Some(buf)), Deserialize(t, buf);
            && (typed.Done? <==> dynamic.Done?) && (typed.Panicked? <==> dynamic.Panicked?)
            && (typed.Done? ==> dynamic.value.Map? && typed.value == Pairs(EntryPairs(dynamic.value.entries)))
  {
    hide DecodeEntries, DecodePairs, RawCells, ReadIntLength;
    if ReadIntLength(buf).Ok? {
      var count := ReadIntLength(buf).value;
      var raw := RawCells(2 * count.value, count.rest);
      DynamicPairs(t.typ, raw.items);
      assert DeserializeMap(t.typ, count.value, count.rest) == Finish(DecodeEntries(t.typ, raw.items), raw.complete);
      assert Deserialize(t, buf) == DeserializeCollection(t.typ, buf);
    }
  }

  function Nullables(vs: seq<Option<CqlValue>>): (r: seq<Decoded>)
    ensures |r| == |vs| && forall i :: 0 <= i < |vs| ==> r[i] == if vs[i].Some? then Value(vs[i].value) else Null
  {
    seq(|vs|, i requires 0 <= i < |vs| => if vs[i].Some? then Value(vs[i].value) else Null)
  }

  function NullablesOf(r: Outcome<seq<Option<CqlValue>>>): (o: Outcome<seq<Decoded>>) {
    var vs :- r;
    Done(Nullables(vs))
  }

  function Repeat(x: Target, n: nat): (xs: seq<Target>)
    ensures |xs| == n && forall i :: 0 <= i < n ==> xs[i] == x
  {
    seq(n, _ => x)
  }

  lemma {:induction false} DynamicEach(ts: seq<ColumnType>, items: seq<Option<bytes>>)
    requires |items| <= |ts|
    ensures DecodeEach(Repeat(Nullable(Dynamic), |ts|), ts, items) == NullablesOf(DecodeElems(ts, items))
    decreases |items|
  {
    hide Deserialize;
    if items == [] {
      assert Nullables([]) == [];
    } else {
      DynamicEach(ts[1..], items[1..]);
      var xs := Repeat(Nullable(Dynamic), |ts|);
      assert xs[1..] == Repeat(Nullable(Dynamic), |ts[1..]|);
      HeadAgrees(ts[0], items[0]);
      var head, tail := DecodeNullable(ts[0], items[0]), DecodeElems(ts[1..], items[1..]);
      if head.Done? && tail.Done? {
        var value := if head.value.Some? then Value(head.value.value) else Null;
        assert Nullables([head.value] + tail.value) == [value] + Nullables(tail.value);
      }
    }
  }

  lemma HeadAgrees(t: ColumnType, item: Option<bytes>)
    ensures var typed, dynamic := DecodeAs(Nullable(Dynamic), t, item), DecodeNullable(t, item);
            && (typed.Done? <==> dynamic.Done?) && (typed.Panicked? <==> dynamic.Panicked?)
            && (typed.Done? ==> typed.value == if dynamic.value.Some? then Value(dynamic.value.value) else Null)
  {
    hide Deserialize;
  }

  /** A tuple of nullable dynamic values holds the elements of the dynamic tuple. */
  lemma TupleAgreesWithDynamic(ts: seq<ColumnType>, buf: bytes)
    requires buf != []
    ensures var t := ColumnType.Tuple(ts);
            var typed, dynamic := DecodeAs(TupleOf(Repeat(Nullable(Dynamic), |ts|)), t, Some(buf)), Deserialize(t, buf);
            && (typed.Done? <==> dynamic.Done?) && (typed.Panicked? <==> dynamic.Panicked?)
            && (typed.Done? ==> dynamic.value.Tuple? && typed.value == Several(Nullables(dynamic.value.elems)))
  {
    hide DecodeEach, DecodeElems, RawCells;
    var raw := RawCells(|ts|, buf);
    DynamicEach(ts, raw.items);
    assert DeserializeTuple(ts, buf) == Finish(DecodeElems(ts, raw.items), raw.complete);
  }

  /** The check of the shape refuses exactly the types that would panic even without a value. */
  lemma ShapeCheckExact(t: ColumnType, n: nat)
    ensures TypeCheck(VecOf(Dynamic), t) <==> !DecodeAs(VecOf(Dynamic), t, None).Panicked?
    ensures TypeCheck(MapOf(Dynamic, Dynamic), t) <==> !DecodeAs(MapOf(Dynamic, Dynamic), t, None).Panicked?
    ensures TypeCheck(TupleOf(Repeat(Dynamic, n)), t) <==> !DecodeAs(TupleOf(Repeat(Dynamic, n)), t, None).Panicked?
  {
    assert DecodeAs(VecOf(Dynamic), t, None).Panicked? <==> !TypeCheck(VecOf(Dynamic), t);
    if TypeCheck(TupleOf(Repeat(Dynamic, n)), t) {
      assert DecodeAs(TupleOf(Repeat(Dynamic, n)), t, None) == Failed;
    }
  }
}
