/**
  For which targets the type check alone keeps the decoder from panicking: those
  without a dynamic part and without vectors nested so deep that a size can
  overflow. A dynamic part passes the check for frozen collections, which it cannot
  decode; the check of a vector passes any dimensions.
 */
module TypeChecks {
  import opened Arith
  import opened Wire
  import opened Vint
  import opened CqlTypes
  import opened Cells
  import opened ValueCodec
  import opened Typed

  predicate HasSize(natives: set<NativeType>, size: nat) {
    exists n :: n in natives && TypeSize(Native(n)) == Some(size)
  }

  /** The largest fixed size among the types that the target accepts, if it is not dynamic. */
  function LargestSize(x: Target): (size: Option<nat>) {
    match x
    case Scalar(natives) => LargestNative(natives)
    case MaybeEmpty(natives) => LargestNative(natives)
    case Nullable(y) => LargestSize(y)
    case VecOf(y) =>
      (match LargestSize(y)
       case Some(n) => Some(n * 0xffff)
       case None => None)
    case _ => None
  }

  function LargestNative(natives: set<NativeType>): (size: Option<nat>) {
    if HasSize(natives, 16) then Some(16)
    else if HasSize(natives, 8) then Some(8)
    else if HasSize(natives, 4) then Some(4)
    else if HasSize(natives, 1) then Some(1)
    else None
  }

  predicate TooLarge(x: Target) {
    LargestSize(x).Some? && LargestSize(x).value >= TWO64
  }

  /** Something in the target is dynamic, or a vector of elements whose size can overflow. */
  predicate Unprotected(x: Target) {
    match x
    case Dynamic => true
    case Scalar(_) => false
    case MaybeEmpty(_) => false
    case Nullable(y) => Unprotected(y)
    case VecOf(y) => Unprotected(y) || TooLarge(y)
    case SetOf(y) => Unprotected(y)
    case MapOf(k, v) => Unprotected(k) || Unprotected(v)
    case TupleOf(ys) => exists i :: 0 <= i < |ys| && Unprotected(ys[i])
  }

  /** Every scalar in the target accepts some type. */
  predicate Inhabited(x: Target) {
    match x
    case Dynamic => true
    case Scalar(natives) => natives != {}
    case MaybeEmpty(natives) => natives != {}
    case Nullable(y) => Inhabited(y)
    case VecOf(y) => Inhabited(y)
    case SetOf(y) => Inhabited(y)
    case MapOf(k, v) => Inhabited(k) && Inhabited(v)
    case TupleOf(ys) => forall i :: 0 <= i < |ys| ==> Inhabited(ys[i])
  }

  /** No accepted type is larger. */
  lemma {:induction false} SizeBound(x: Target, t: ColumnType)
    requires TypeCheck(x, t) && !Unprotected(x) && TypeSize(t).Some?
    ensures LargestSize(x).Some? && TypeSize(t).value <= LargestSize(x).value
  {
    match x
    case Nullable(y) => SizeBound(y, t);
    case VecOf(y) =>
      SizeBound(y, t.elem);
      MulMonotone(TypeSize(t.elem).value, LargestSize(y).value, t.dimensions);
      MulMonotone(t.dimensions, 0xffff, LargestSize(y).value);
    case _ =>
  }

  lemma {:induction false} OverflowBound(x: Target, t: ColumnType)
    requires TypeCheck(x, t) && !Unprotected(x) && SizeOverflows(t)
    ensures TooLarge(x)
  {
    match x
    case Nullable(y) => OverflowBound(y, t);
    case VecOf(y) =>
      if SizeOverflows(t.elem) {
        OverflowBound(y, t.elem);
      } else {
        SizeBound(x, t);
      }
    case _ =>
  }

  lemma {:induction false} ProtectedIsSafe(x: Target, t: ColumnType)
    requires TypeCheck(x, t) && !Unprotected(x)
    ensures Safe(x, t)
  {
    match x
    case Scalar(_) =>
    case MaybeEmpty(_) =>
    case Nullable(y) => ProtectedIsSafe(y, t);
    case VecOf(y) =>
      ProtectedIsSafe(y, if t.Vector? then t.elem else t.typ.elem);
      if t.Vector? && SizeOverflows(t.elem) {
        OverflowBound(y, t.elem);
      }
    case SetOf(y) => ProtectedIsSafe(y, t.typ.elem);
    case MapOf(k, v) =>
      ProtectedIsSafe(k, t.typ.key);
      ProtectedIsSafe(v, t.typ.value);
    case TupleOf(ys) =>
      forall i | 0 <= i < |ys|
        ensures Safe(ys[i], t.elems[i])
      {
        ProtectedIsSafe(ys[i], t.elems[i]);
      }
  }

  /** An accepted type of the largest size. */
  lemma {:induction false} LargestType(x: Target) returns (t: ColumnType)
    requires LargestSize(x).Some?
    ensures TypeCheck(x, t) && TypeSize(t) == LargestSize(x)
    ensures TooLarge(x) ==> SizeOverflows(t)
    decreases x
  {
    match x
    case Nullable(y) => t := LargestType(y);
    case VecOf(y) =>
      t := LargestType(y);
      t := ColumnType.Vector(t, 0xffff);
    case Scalar(natives) =>
      var n :| n in natives && TypeSize(Native(n)) == LargestSize(x);
      t := Native(n);
    case MaybeEmpty(natives) =>
      var n :| n in natives && TypeSize(Native(n)) == LargestSize(x);
      t := Native(n);
  }

  function Nested(n: nat, x: Target): (y: Target) {
    if n == 0 then x else VecOf(Nested(n - 1, x))
  }

  /** Four levels of vectors of bigints are protected, five are not. */
  lemma DepthOfBigInts()
    ensures !Unprotected(Nested(4, Scalar({NativeType.BigInt}))) && Unprotected(Nested(5, Scalar({NativeType.BigInt})))
  {
    var x := Scalar({NativeType.BigInt});
    assert TypeSize(Native(NativeType.BigInt)) == Some(8);
    assert LargestSize(Nested(0, x)) == Some(8);
    assert LargestSize(Nested(1, x)) == Some(8 * 0xffff);
    assert LargestSize(Nested(2, x)) == Some(8 * 0xffff * 0xffff);
    assert LargestSize(Nested(3, x)) == Some(8 * 0xffff * 0xffff * 0xffff);
    assert LargestSize(Nested(4, x)) == Some(8 * 0xffff * 0xffff * 0xffff * 0xffff);
    assert !Unprotected(Nested(1, x)) && !Unprotected(Nested(2, x)) && !Unprotected(Nested(3, x));
  }

  // ------------------------------------------------------------------ samples

  /** The length of the cells built below. */
  function Size(x: Target): (n: nat)
    ensures n > 0
  {
    match x
    case Dynamic => 1
    case Scalar(_) => 16
    case MaybeEmpty(_) => 1
    case Nullable(y) => Size(y)
    case VecOf(y) => 8 + Size(y)
    case SetOf(y) => 8 + Size(y)
    case MapOf(k, v) => 12 + Size(k) + Size(v)
    case TupleOf(ys) => 1 + SizeAll(ys)
  }

  function SizeAll(ys: seq<Target>): (n: nat) {
    if ys == [] then 0 else 4 + Size(ys[0]) + SizeAll(ys[1..])
  }

  /** Bytes that decode as the native type. */
  function SampleNative(n: NativeType): (bs: bytes)
    ensures |bs| <= 16
  {
    match n
    case Boolean => [0]
    case TinyInt => [0]
    case SmallInt => [0, 0]
    case Date => [0, 0, 0, 0]
    case Decimal => [0, 0, 0, 0]
    case Float => [0, 0, 0, 0]
    case Int => [0, 0, 0, 0]
    case Inet => [0, 0, 0, 0]
    case Duration => [0, 0, 0]
    case Counter => [0, 0, 0, 0, 0, 0, 0, 0]
    case Double => [0, 0, 0, 0, 0, 0, 0, 0]
    case BigInt => [0, 0, 0, 0, 0, 0, 0, 0]
    case Timestamp => [0, 0, 0, 0, 0, 0, 0, 0]
    case Time => [0, 0, 0, 0, 0, 0, 0, 0]
    case Timeuuid => [0, 0, 0, 0, 0, 0, 0, 0, 0, 0, 0, 0, 0, 0, 0, 0]
    case Uuid => [0, 0, 0, 0, 0, 0, 0, 0, 0, 0, 0, 0, 0, 0, 0, 0]
    case _ => []
  }

  lemma {:induction false} ZerosAreZero(bs: bytes)
    requires forall i :: 0 <= i < |bs| ==> bs[i] == 0
    ensures FromBE(bs) == 0
  {
    if bs != [] {
      ZerosAreZero(bs[..|bs| - 1]);
    }
  }

  lemma ZeroVint(rest: bytes)
    ensures VintDecode([0] + rest) == Ok(Read(0, rest))
  {
    assert UnsignedVintDecode([0] + rest) == Ok(Read(0, rest)) by {
      SingleByte(0, rest);
    }
  }

  lemma ZeroDuration()
    ensures DeserializeDuration([0, 0, 0]).Done?
  {
    hide VintDecode;
    ZeroVint([0, 0]);
    ZeroVint([0]);
    ZeroVint([]);
    assert [0, 0, 0] == [0] + [0, 0] && [0, 0] == [0] + [0] && [0] == [0] + [];
  }

  lemma ZeroTime(bs: bytes)
    requires |bs| == 8 && forall i :: 0 <= i < 8 ==> bs[i] == 0
    ensures FromSignedBE(bs) == 0
  {
    Pow256Values();
    ZerosAreZero(bs);
  }

  lemma SampleDecodes(n: NativeType)
    ensures DeserializeNative(n, SampleNative(n)).Done?
  {
    hide FromBE, FromSignedBE, Pow256, VintDecode, DeserializeDuration;
    ZeroDuration();
    if n.Time? {
      ZeroTime(SampleNative(n));
    }
  }

  /** A type and a cell that the target accepts. */
  lemma {:induction false} Sample(x: Target) returns (t: ColumnType, v: Option<bytes>)
    requires Inhabited(x) && Size(x) <= I32_MAX
    ensures TypeCheck(x, t) && DecodeAs(x, t, v).Done?
    ensures v.Some? ==> |v.value| <= Size(x)
    decreases x
  {
    match x
    case Dynamic => t, v := Native(NativeType.Blob), Some([]);
    case Scalar(natives) =>
      var n :| n in natives;
      SampleDecodes(n);
      t, v := Native(n), Some(SampleNative(n));
    case MaybeEmpty(natives) =>
      var n :| n in natives;
      t, v := Native(n), Some([]);
    case Nullable(y) =>
      t, v := Sample(y);
      v := None;
    case VecOf(y) =>
      t, v := Sample(y);
      t, v := Collection(false, CollectionType.List(t)), None;
    case SetOf(y) =>
      t, v := Sample(y);
      t, v := Collection(false, CollectionType.Set(t)), None;
    case MapOf(k, w) =>
      var kt, wt;
      kt, v := Sample(k);
      wt, v := Sample(w);
      t, v := Collection(false, CollectionType.Map(kt, wt)), None;
    case TupleOf(ys) =>
      var ts, items := SampleAll(ys);
      TupleBuffer(ys, ts, items);
      t, v := ColumnType.Tuple(ts), Some(JoinCells(items));
  }

  predicate FitAll(items: seq<Option<bytes>>) {
    forall i :: 0 <= i < |items| ==> FitsCell(items[i])
  }

  predicate CheckAll(ys: seq<Target>, ts: seq<ColumnType>) {
    |ys| == |ts| && forall i :: 0 <= i < |ys| ==> TypeCheck(ys[i], ts[i])
  }

  lemma {:induction false} SampleAll(ys: seq<Target>) returns (ts: seq<ColumnType>, items: seq<Option<bytes>>)
    requires (forall i :: 0 <= i < |ys| ==> Inhabited(ys[i])) && SizeAll(ys) <= I32_MAX
    ensures CheckAll(ys, ts) && |items| == |ys| && DecodeEach(ys, ts, items).Done?
    ensures FitAll(items) && |JoinCells(items)| <= SizeAll(ys)
    decreases ys
  {
    if ys == [] {
      ts, items := [], [];
    } else {
      var t, v := Sample(ys[0]);
      ts, items := SampleAll(ys[1..]);
      ConsEach(ys, t, ts, v, items);
      ts, items := [t] + ts, [v] + items;
    }
  }

  /** One more element in front. */
  lemma ConsEach(ys: seq<Target>, t: ColumnType, ts: seq<ColumnType>, v: Option<bytes>, items: seq<Option<bytes>>)
    requires ys != [] && CheckAll(ys[1..], ts) && |items| == |ts| && FitAll(items)
    requires TypeCheck(ys[0], t) && FitsCell(v)
    requires (v.Some? ==> |v.value| <= Size(ys[0])) && |JoinCells(items)| <= SizeAll(ys[1..])
    ensures CheckAll(ys, [t] + ts) && FitAll([v] + items) && |JoinCells([v] + items)| <= SizeAll(ys)
    ensures var head, tail := DecodeAs(ys[0], t, v), DecodeEach(ys[1..], ts, items);
            var all := DecodeEach(ys, [t] + ts, [v] + items);
            && (all.Done? <==> head.Done? && tail.Done?)
            && (all.Panicked? <==> head.Panicked? || (head.Done? && tail.Panicked?))
  {
    hide DecodeAs, TypeCheck;
    assert forall i :: 0 < i < |ys| ==> ys[i] == ys[1..][i - 1] && ([t] + ts)[i] == ts[i - 1];
    assert ([v] + items)[1..] == items && ([t] + ts)[1..] == ts;
    assert forall i :: 0 < i < |ys| ==> ([v] + items)[i] == items[i - 1];
  }

  lemma TupleBuffer(ys: seq<Target>, ts: seq<ColumnType>, items: seq<Option<bytes>>)
    requires CheckAll(ys, ts) && |items| == |ys| && FitAll(items)
    ensures TypeCheck(TupleOf(ys), ColumnType.Tuple(ts))
    ensures var r := DecodeAs(TupleOf(ys), ColumnType.Tuple(ts), Some(JoinCells(items)));
            && (r.Done? <==> DecodeEach(ys, ts, items).Done?)
            && (r.Panicked? <==> DecodeEach(ys, ts, items).Panicked?)
  {
    hide DecodeEach, RawCells, JoinCells;
    RawCellsInvertJoin(items);
  }

  // ----------------------------------------------------------------- witnesses

  lemma OneCell(buf: bytes)
    requires |buf| <= I32_MAX
    ensures FitAll([Some(buf)]) && |JoinCells([Some(buf)])| == 4 + |buf|
  {
    assert [Some(buf)][1..] == [];
  }

  /** A list of one element. */
  lemma ListBufferAs(y: Target, c: CollectionType, inner: bytes) returns (buf: bytes)
    requires !c.Map? && |inner| <= I32_MAX && DecodeAs(y, c.elem, Some(inner)).Panicked?
    ensures DecodeList(y, Collection(false, c), Some(buf)).Panicked? && |buf| == 8 + |inner|
  {
    hide DecodeAs, RawCells, JoinCells, ReadIntLength;
    var items := [Some(inner)];
    OneCell(inner);
    buf := WriteIntLength(1).value + JoinCells(items);
    IntLengthRoundTrip(1, JoinCells(items));
    RawCellsInvertJoin(items);
    assert DecodeItems(y, c.elem, items).Panicked?;
  }

  /** A map of one entry. */
  lemma MapBufferAs(x: Target, c: CollectionType, items: seq<Option<bytes>>) returns (buf: bytes)
    requires x.MapOf? && c.Map? && |items| == 2 && FitAll(items)
    requires DecodePairs(x, c, items).Panicked?
    ensures DecodeMapAs(x, Collection(false, c), Some(buf)).Panicked? && |buf| == 4 + |JoinCells(items)|
  {
    hide DecodeAs, DecodePairs, RawCells, JoinCells, ReadIntLength;
    buf := WriteIntLength(1).value + JoinCells(items);
    IntLengthRoundTrip(1, JoinCells(items));
    RawCellsInvertJoin(items);
  }

  lemma TwoCells(a: Option<bytes>, b: Option<bytes>)
    requires FitsCell(a) && FitsCell(b)
    ensures FitAll([a, b])
    ensures |JoinCells([a, b])|
            == 8 + (if a.Some? then |a.value| else 0) + (if b.Some? then |b.value| else 0)
  {
    assert [a, b][1..] == [b] && [b][1..] == [];
    assert JoinCells([b]) == WriteBytesOpt(b).value + JoinCells([]);
  }

  /** A type that passes the check and bytes of it that panic. */
  lemma {:induction false} PanicWitness(x: Target) returns (t: ColumnType, buf: bytes)
    requires Unprotected(x) && Inhabited(x) && Size(x) <= I32_MAX
    ensures TypeCheck(x, t) && DecodeAs(x, t, Some(buf)).Panicked?
    ensures 0 < |buf| <= Size(x)
    decreases x
  {
    match x
    case Dynamic =>
      t, buf := Collection(true, CollectionType.List(Native(NativeType.Int))), [0];
      assert Deserialize(t, buf).Panicked?;
    case Nullable(y) => t, buf := PanicWitness(y);
    case VecOf(y) =>
      if Unprotected(y) {
        t, buf := PanicWitness(y);
        t := Collection(false, CollectionType.List(t));
        buf := ListBufferAs(y, t.typ, buf);
      } else {
        t := LargestType(y);
        t, buf := ColumnType.Vector(t, 1), [0];
      }
    case SetOf(y) =>
      t, buf := PanicWitness(y);
      t := Collection(false, CollectionType.Set(t));
      buf := ListBufferAs(y, t.typ, buf);
    case MapOf(k, v) => t, buf := MapWitness(x);
    case TupleOf(ys) =>
      var ts, items := PanicEach(ys);
      TupleBuffer(ys, ts, items);
      t, buf := ColumnType.Tuple(ts), JoinCells(items);
  }

  lemma MapWitness(x: Target) returns (t: ColumnType, buf: bytes)
    requires x.MapOf? && Unprotected(x) && Inhabited(x) && Size(x) <= I32_MAX
    ensures TypeCheck(x, t) && DecodeMapAs(x, t, Some(buf)).Panicked?
    ensures 0 < |buf| <= Size(x)
    decreases x, 0
  {
    if Unprotected(x.key) {
      var kt, kb := PanicWitness(x.key);
      var vt, vv := Sample(x.value);
      var c, items := CollectionType.Map(kt, vt), [Some(kb), Some([])];
      TwoCells(items[0], items[1]);
      assert DecodePairs(x, c, items).Panicked?;
      buf := MapBufferAs(x, c, items);
      t := Collection(false, c);
    } else {
      var kt, kv := Sample(x.key);
      var vt, vb := PanicWitness(x.value);
      var c, items := CollectionType.Map(kt, vt), [kv, Some(vb)];
      TwoCells(items[0], items[1]);
      assert DecodePairs(x, c, items).Panicked?;
      buf := MapBufferAs(x, c, items);
      t := Collection(false, c);
    }
  }

  lemma {:induction false} PanicEach(ys: seq<Target>) returns (ts: seq<ColumnType>, items: seq<Option<bytes>>)
    requires (forall i :: 0 <= i < |ys| ==> Inhabited(ys[i])) && SizeAll(ys) <= I32_MAX
    requires exists i :: 0 <= i < |ys| && Unprotected(ys[i])
    ensures CheckAll(ys, ts) && |items| == |ys| && DecodeEach(ys, ts, items).Panicked?
    ensures FitAll(items) && 0 < |JoinCells(items)| <= SizeAll(ys)
    decreases ys
  {
    if Unprotected(ys[0]) {
      var t, buf := PanicWitness(ys[0]);
      ts, items := SampleAll(ys[1..]);
      ConsEach(ys, t, ts, Some(buf), items);
      ts, items := [t] + ts, [Some(buf)] + items;
    } else {
      var t, v := Sample(ys[0]);
      assert exists i :: 0 <= i < |ys[1..]| && Unprotected(ys[1..][i]) by {
        var i :| 0 <= i < |ys| && Unprotected(ys[i]);
        assert ys[1..][i - 1] == ys[i];
      }
      ts, items := PanicEach(ys[1..]);
      ConsEach(ys, t, ts, v, items);
      ts, items := [t] + ts, [v] + items;
    }
  }

  /** The check protects a target, for all types and bytes, iff nothing in it is dynamic or can be too large. */
  lemma CheckProtectsExactlyWhen(x: Target)
    requires Inhabited(x) && Size(x) <= I32_MAX
    ensures (forall t: ColumnType, v: Option<bytes> :: TypeCheck(x, t) ==> !DecodeAs(x, t, v).Panicked?)
            <==> !Unprotected(x)
  {
    hide DecodeAs, TypeCheck, Unprotected, Inhabited;
    if Unprotected(x) {
      var t, buf := PanicWitness(x);
    } else {
      forall t: ColumnType, v: Option<bytes> | TypeCheck(x, t)
        ensures !DecodeAs(x, t, v).Panicked?
      {
        ProtectedIsSafe(x, t);
        TypedNeverPanics(x, t, v);
      }
    }
  }
}
