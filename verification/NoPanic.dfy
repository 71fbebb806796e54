/**
  Which types can make the dynamic decoder panic: the ones that reach a frozen
  collection or a vector whose element size overflows, and no others.
 */
module NoPanic {
  import opened Wire
  import opened Vint
  import opened CqlTypes
  import opened Cells
  import opened ValueCodec

  predicate CanPanic(t: ColumnType) {
    match t
    case Native(_) => false
    case Collection(frozen, c) =>
      || frozen
      || (if c.Map? then CanPanic(c.key) || CanPanic(c.value) else CanPanic(c.elem))
    case Vector(e, d) => SizeOverflows(e) || (d > 0 && CanPanic(e))
    case UserDefinedType(_, _, _, fs) => exists i :: 0 <= i < |fs| && CanPanic(fs[i].typ)
    case Tuple(ts) => exists i :: 0 <= i < |ts| && CanPanic(ts[i])
  }

  // ------------------------------------------------------------------- safety

  lemma {:induction false} NeverPanics(t: ColumnType, buf: bytes)
    requires !CanPanic(t)
    ensures !Deserialize(t, buf).Panicked?
    decreases t, 0
  {
    if buf != [] || EmptyIsOrdinary(t) {
      match t
      case Native(_) =>
      case Collection(_, c) => CollectionNeverPanics(c, buf);
      case Vector(e, d) =>
        if d > 0 {
          AllNeverPanic(e, RawVector(e, d, buf).items);
        } else {
          assert RawVector(e, d, buf) == NOTHING;
          assert DecodeAll(e, []) == Done([]);
        }
      case UserDefinedType(_, _, _, fs) => FieldsNeverPanic(fs, RawFields(|fs|, buf).items);
      case Tuple(ts) => ElemsNeverPanic(ts, RawCells(|ts|, buf).items);
    }
  }

  lemma CollectionNeverPanics(c: CollectionType, buf: bytes)
    requires !CanPanic(Collection(false, c))
    ensures !DeserializeCollection(c, buf).Panicked?
    decreases c, 0
  {
    match ReadIntLength(buf)
    case Err(_) =>
    case Ok(count) =>
      if c.Map? {
        EntriesNeverPanic(c, RawCells(2 * count.value, count.rest).items);
      } else {
        AllNeverPanic(c.elem, RawCells(count.value, count.rest).items);
      }
  }

  lemma {:induction false} AllNeverPanic(e: ColumnType, items: seq<Option<bytes>>)
    requires !CanPanic(e)
    ensures !DecodeAll(e, items).Panicked?
    decreases e, 1, |items|
  {
    if items != [] {
      if items[0].Some? {
        NeverPanics(e, items[0].value);
      }
      AllNeverPanic(e, items[1..]);
    }
  }

  lemma {:induction false} EntriesNeverPanic(c: CollectionType, items: seq<Option<bytes>>)
    requires c.Map? && !CanPanic(c.key) && !CanPanic(c.value)
    ensures !DecodeEntries(c, items).Panicked?
    decreases c, 0, |items|
  {
    if |items| >= 2 {
      if items[0].Some? {
        NeverPanics(c.key, items[0].value);
      }
      if items[1].Some? {
        NeverPanics(c.value, items[1].value);
      }
      EntriesNeverPanic(c, items[2..]);
    }
  }

  lemma {:induction false} FieldsNeverPanic(fs: seq<Field>, items: seq<Option<bytes>>)
    requires |items| <= |fs| && forall i :: 0 <= i < |fs| ==> !CanPanic(fs[i].typ)
    ensures !DecodeFields(fs, items).Panicked?
    decreases fs
  {
    if items != [] {
      if items[0].Some? {
        NeverPanics(fs[0].typ, items[0].value);
      }
      FieldsNeverPanic(fs[1..], items[1..]);
    }
  }

  lemma {:induction false} ElemsNeverPanic(ts: seq<ColumnType>, items: seq<Option<bytes>>)
    requires |items| <= |ts| && forall i :: 0 <= i < |ts| ==> !CanPanic(ts[i])
    ensures !DecodeElems(ts, items).Panicked?
    decreases ts
  {
    if items != [] {
      if items[0].Some? {
        NeverPanics(ts[0], items[0].value);
      }
      ElemsNeverPanic(ts[1..], items[1..]);
    }
  }

  /** Whatever count it declares, a decoded list fits its buffer. */
  lemma ListBound(c: CollectionType, buf: bytes)
    ensures var r := DeserializeCollection(c, buf);
            && (!c.Map? && r.Done? ==> 4 + 4 * |r.value.items| <= |buf|)
            && (c.Map? && r.Done? ==> 4 + 8 * |r.value.entries| <= |buf|)
  {
  }

  /** A vector of vectors of 2^64 bytes each: no frozen collection, and any byte panics. */
  lemma HugeElementsPanic(b: byte)
    ensures var e := ColumnType.Vector(Power(4), 2);
            TypeSize(e) == Some(TWO64) && CanPanic(ColumnType.Vector(e, 1))
            && Deserialize(ColumnType.Vector(e, 1), [b]).Panicked?
  {
    var e := ColumnType.Vector(Power(4), 2);
    PowerSize(4);
    assert SizeOverflows(e);
  }

  /** Vectors of 32768 elements, nested `n` deep around a bigint. */
  function Power(n: nat): (t: ColumnType) {
    if n == 0 then Native(NativeType.BigInt) else ColumnType.Vector(Power(n - 1), 0x8000)
  }

  lemma PowerSize(n: nat)
    requires n <= 4
    ensures TypeSize(Power(n)) == Some(if n == 0 then 8 else if n == 1 then 0x4_0000 else if n == 2 then 0x2_0000_0000
                                       else if n == 3 then 0x1_0000_0000_0000 else 0x8000_0000_0000_0000)
  {
    if n > 0 {
      PowerSize(n - 1);
    }
  }

  // ------------------------------------------------------- the shortest panic

  /** The length of the shortest bytes that panic, if any do. */
  function MinPanic(t: ColumnType): (m: Option<nat>) {
    match t
    case Native(_) => None
    case Collection(frozen, c) =>
      if frozen then Some(1)
      else if c.Map? then Plus(12, Least(InCell(MinPanic(c.key)), InCell(MinPanic(c.value))))
      else Plus(8, InCell(MinPanic(c.elem)))
    case Vector(e, d) =>
      if SizeOverflows(e) then Some(1) else if d == 0 then None else Prefixed(MinPanic(e))
    case UserDefinedType(_, _, _, fs) => MinFields(fs)
    case Tuple(ts) => MinElems(ts)
  }

  /** The first field panics, or it is null and a later one does. */
  function MinFields(fs: seq<Field>): (m: Option<nat>) {
    if fs == [] then None else Plus(4, Least(InCell(MinPanic(fs[0].typ)), MinFields(fs[1..])))
  }

  function MinElems(ts: seq<ColumnType>): (m: Option<nat>) {
    if ts == [] then None else Plus(4, Least(InCell(MinPanic(ts[0])), MinElems(ts[1..])))
  }

  /** Only so many bytes fit a cell. */
  function InCell(m: Option<nat>): (r: Option<nat>) {
    if m.Some? && m.value > I32_MAX then None else m
  }

  /** Bytes with their length in front as a vint. */
  function Prefixed(m: Option<nat>): (r: Option<nat>) {
    if m.Some? && m.value < TWO64 then Some(|UnsignedVintEncode(m.value)| + m.value) else None
  }

  function Plus(n: nat, m: Option<nat>): (r: Option<nat>) {
    if m.Some? then Some(n + m.value) else None
  }

  function Least(a: Option<nat>, b: Option<nat>): (r: Option<nat>) {
    if a.None? then b else if b.None? || a.value <= b.value then a else b
  }

  predicate AtMost(m: Option<nat>, n: nat) {
    m.Some? && m.value <= n
  }

  // ---------------------------------------------------------- no shorter one

  lemma {:induction false} NoShorterPanic(t: ColumnType, buf: bytes)
    requires Deserialize(t, buf).Panicked?
    ensures AtMost(MinPanic(t), |buf|)
    decreases t, 0
  {
    hide ReadIntLength, RawCells, RawFields, RawVariable, RawFixed, DecodeAll, DecodeEntries, DecodeFields, DecodeElems,
      UnsignedVintEncode;
    match t
    case Native(_) =>
    case Collection(frozen, c) =>
      if !frozen {
        IntLengthTakesFour(buf);
        assert DeserializeCollection(c, buf).Panicked?;
        var count := ReadIntLength(buf).value;
        if c.Map? {
          assert DeserializeMap(c, count.value, count.rest).Panicked?;
          NoShorterEntries(c, count.value, count.rest);
        } else {
          assert DeserializeCells(c.elem, count.value, count.rest).Panicked?;
          NoShorterCells(c.elem, count.value, count.rest);
        }
      }
    case Vector(e, d) =>
      if !SizeOverflows(e) {
        if TypeSize(e).Some? {
          FixedCannotPanic(e, RawFixed(TypeSize(e).value, d, buf).items);
        } else {
          NoShorterVariable(e, d, buf);
        }
      }
    case UserDefinedType(_, _, _, fs) => NoShorterFields(fs, buf);
    case Tuple(ts) => NoShorterElems(ts, buf);
  }

  lemma IntLengthTakesFour(buf: bytes)
    ensures ReadIntLength(buf).Ok? ==> |buf| == 4 + |ReadIntLength(buf).value.rest|
  {
  }

  lemma CellTakesFour(buf: bytes)
    ensures var r := ReadBytesOpt(buf);
            r.Ok? ==> if r.value.value.None? then |buf| == 4 + |r.value.rest|
                      else |r.value.value.value| <= I32_MAX && |buf| == 4 + |r.value.value.value| + |r.value.rest|
  {
  }

  /** If decoding the elements panics, the head does or the tail does. */
  lemma AllHead(e: ColumnType, item: Option<bytes>, rest: seq<Option<bytes>>)
    requires DecodeAll(e, [item] + rest).Panicked?
    ensures (item.Some? && Deserialize(e, item.value).Panicked?) || DecodeAll(e, rest).Panicked?
  {
    hide Deserialize;
    var items := [item] + rest;
    assert items[0] == item && items[1..] == rest;
    assert DecodeValue(e, item).Panicked? || DecodeAll(e, rest).Panicked?;
  }

  lemma {:induction false} NoShorterCells(e: ColumnType, n: nat, buf: bytes)
    requires DecodeAll(e, RawCells(n, buf).items).Panicked?
    ensures AtMost(Plus(4, InCell(MinPanic(e))), |buf|)
    decreases e, 1, n
  {
    hide ReadBytesOpt, Deserialize, MinPanic;
    assert DecodeAll(e, []) == Done([]);
    var cell := ReadBytesOpt(buf).value;
    CellTakesFour(buf);
    AllHead(e, cell.value, RawCells(n - 1, cell.rest).items);
    if cell.value.Some? && Deserialize(e, cell.value.value).Panicked? {
      NoShorterPanic(e, cell.value.value);
    } else {
      NoShorterCells(e, n - 1, cell.rest);
    }
  }

  lemma EntriesHead(c: CollectionType, k: Option<bytes>, v: Option<bytes>, rest: seq<Option<bytes>>)
    requires c.Map? && DecodeEntries(c, [k] + ([v] + rest)).Panicked?
    ensures || (k.Some? && Deserialize(c.key, k.value).Panicked?)
            || (v.Some? && Deserialize(c.value, v.value).Panicked?)
            || DecodeEntries(c, rest).Panicked?
  {
    hide Deserialize;
    var items := [k] + ([v] + rest);
    assert items[0] == k && items[1] == v && items[2..] == rest;
    assert DecodeValue(c.key, k).Panicked? || DecodeValue(c.value, v).Panicked? || DecodeEntries(c, rest).Panicked?;
  }

  lemma {:induction false} NoShorterEntries(c: CollectionType, n: nat, buf: bytes)
    requires c.Map? && DecodeEntries(c, RawCells(2 * n, buf).items).Panicked?
    ensures AtMost(Plus(8, Least(InCell(MinPanic(c.key)), InCell(MinPanic(c.value)))), |buf|)
    decreases c, 1, n
  {
    hide ReadBytesOpt, Deserialize, MinPanic;
    TwoItems(c, n, buf);
    var k := ReadBytesOpt(buf).value;
    var v := ReadBytesOpt(k.rest).value;
    CellTakesFour(buf);
    CellTakesFour(k.rest);
    EntriesHead(c, k.value, v.value, RawCells(2 * (n - 1), v.rest).items);
    if k.value.Some? && Deserialize(c.key, k.value.value).Panicked? {
      NoShorterPanic(c.key, k.value.value);
    } else if v.value.Some? && Deserialize(c.value, v.value.value).Panicked? {
      NoShorterPanic(c.value, v.value.value);
    } else {
      NoShorterEntries(c, n - 1, v.rest);
    }
  }

  /** An entry is decoded only if both its cells were read. */
  lemma TwoItems(c: CollectionType, n: nat, buf: bytes)
    requires c.Map? && DecodeEntries(c, RawCells(2 * n, buf).items).Panicked?
    ensures n > 0 && ReadBytesOpt(buf).Ok? && ReadBytesOpt(ReadBytesOpt(buf).value.rest).Ok?
    ensures var k := ReadBytesOpt(buf).value;
            var v := ReadBytesOpt(k.rest).value;
            RawCells(2 * n, buf).items == [k.value] + ([v.value] + RawCells(2 * (n - 1), v.rest).items)
  {
    hide ReadBytesOpt, Deserialize;
    assert |RawCells(2 * n, buf).items| >= 2;
    var k := ReadBytesOpt(buf).value;
    assert RawCells(2 * n - 1, k.rest).items != [];
  }

  lemma LongerVint(m: u64, n: u64)
    requires m <= n
    ensures |UnsignedVintEncode(m)| <= |UnsignedVintEncode(n)|
  {
    hide UnsignedVintEncode, Pow2;
    EncodedLength(m);
    EncodedLength(n);
    var a, b := |UnsignedVintEncode(m)|, |UnsignedVintEncode(n)|;
    if a > b {
      Pow2Monotone(7 * b, 7 * (a - 1));
    }
  }

  /** What an element of this size and its length take. */
  lemma VariableTakes(buf: bytes)
    requires UnsignedVintDecode(buf).Ok?
    requires ReadNBytes(UnsignedVintDecode(buf).value.value, UnsignedVintDecode(buf).value.rest).Ok?
    ensures var size := UnsignedVintDecode(buf).value;
            var item := ReadNBytes(size.value, size.rest).value;
            && |item.rest| <= |buf|
            && (item.value.Some? ==>
                  |item.value.value| == size.value && |UnsignedVintEncode(size.value)| + size.value <= |buf|)
  {
    hide UnsignedVintEncode, UnsignedVintDecode;
    UnsignedVintMinimal(buf);
  }

  lemma {:induction false} NoShorterVariable(e: ColumnType, n: nat, buf: bytes)
    requires DecodeAll(e, RawVariable(n, buf).items).Panicked?
    ensures AtMost(Prefixed(MinPanic(e)), |buf|) && n > 0
    decreases e, 1, n
  {
    hide UnsignedVintEncode, UnsignedVintDecode, ReadNBytes, Deserialize, MinPanic;
    assert DecodeAll(e, []) == Done([]);
    var size := UnsignedVintDecode(buf).value;
    var item := ReadNBytes(size.value, size.rest).value;
    VariableTakes(buf);
    AllHead(e, item.value, RawVariable(n - 1, item.rest).items);
    if item.value.Some? && Deserialize(e, item.value.value).Panicked? {
      NoShorterPanic(e, item.value.value);
      LongerVint(MinPanic(e).value, size.value);
    } else {
      NoShorterVariable(e, n - 1, item.rest);
    }
  }

  lemma FieldsHead(fs: seq<Field>, item: Option<bytes>, rest: seq<Option<bytes>>)
    requires |rest| < |fs| && DecodeFields(fs, [item] + rest).Panicked?
    ensures (item.Some? && Deserialize(fs[0].typ, item.value).Panicked?) || DecodeFields(fs[1..], rest).Panicked?
  {
    hide Deserialize;
    var items := [item] + rest;
    assert items[0] == item && items[1..] == rest;
    assert DecodeNullable(fs[0].typ, item).Panicked? || DecodeFields(fs[1..], rest).Panicked?;
  }

  lemma {:induction false} NoShorterFields(fs: seq<Field>, buf: bytes)
    requires DecodeFields(fs, RawFields(|fs|, buf).items).Panicked?
    ensures AtMost(MinFields(fs), |buf|) && buf != []
    decreases fs
  {
    hide ReadBytesOpt, Deserialize, MinPanic;
    assert DecodeFields(fs, []) == Done([]);
    if buf == [] {
      FieldsHead(fs, None, RawFields(|fs| - 1, buf).items);
      NoShorterFields(fs[1..], buf);
    } else {
      var cell := ReadBytesOpt(buf).value;
      CellTakesFour(buf);
      FieldsHead(fs, cell.value, RawFields(|fs| - 1, cell.rest).items);
      if cell.value.Some? && Deserialize(fs[0].typ, cell.value.value).Panicked? {
        NoShorterPanic(fs[0].typ, cell.value.value);
      } else {
        NoShorterFields(fs[1..], cell.rest);
      }
    }
  }

  lemma ElemsHead(ts: seq<ColumnType>, item: Option<bytes>, rest: seq<Option<bytes>>)
    requires |rest| < |ts| && DecodeElems(ts, [item] + rest).Panicked?
    ensures (item.Some? && Deserialize(ts[0], item.value).Panicked?) || DecodeElems(ts[1..], rest).Panicked?
  {
    hide Deserialize;
    var items := [item] + rest;
    assert items[0] == item && items[1..] == rest;
    assert DecodeNullable(ts[0], item).Panicked? || DecodeElems(ts[1..], rest).Panicked?;
  }

  lemma {:induction false} NoShorterElems(ts: seq<ColumnType>, buf: bytes)
    requires DecodeElems(ts, RawCells(|ts|, buf).items).Panicked?
    ensures AtMost(MinElems(ts), |buf|)
    decreases ts
  {
    hide ReadBytesOpt, Deserialize, MinPanic;
    assert DecodeElems(ts, []) == Done([]);
    var cell := ReadBytesOpt(buf).value;
    CellTakesFour(buf);
    ElemsHead(ts, cell.value, RawCells(|ts| - 1, cell.rest).items);
    if cell.value.Some? && Deserialize(ts[0], cell.value.value).Panicked? {
      NoShorterPanic(ts[0], cell.value.value);
    } else {
      NoShorterElems(ts[1..], cell.rest);
    }
  }

  /** A type of a fixed size can panic only because that size overflows. */
  lemma {:induction false} FixedPanicsBySize(t: ColumnType)
    requires TypeSize(t).Some? && CanPanic(t)
    ensures SizeOverflows(t)
  {
    if t.Vector? && !SizeOverflows(t.elem) {
      FixedPanicsBySize(t.elem);
    }
  }

  lemma FixedCannotPanic(e: ColumnType, items: seq<Option<bytes>>)
    requires TypeSize(e).Some? && !SizeOverflows(e)
    ensures !DecodeAll(e, items).Panicked?
  {
    if CanPanic(e) {
      FixedPanicsBySize(e);
    }
    AllNeverPanic(e, items);
  }

  // -------------------------------------------------------- bytes of that length

  lemma EmptyDecodes(t: ColumnType)
    ensures Deserialize(t, []).Done?
  {
  }

  /** A list or set of one element. */
  lemma ListBuffer(c: CollectionType, inner: bytes) returns (buf: bytes)
    requires !c.Map? && |inner| <= I32_MAX && Deserialize(c.elem, inner).Panicked?
    ensures DeserializeCollection(c, buf).Panicked? && |buf| == 8 + |inner|
  {
    hide Deserialize, ReadIntLength, ReadBytesOpt;
    var cell := WriteBytesOpt(Some(inner)).value;
    buf := WriteIntLength(1).value + cell;
    IntLengthRoundTrip(1, cell);
    BytesOptRoundTrip(Some(inner), []);
    assert cell + [] == cell;
    assert RawCells(1, cell).items[0] == Some(inner);
    assert DecodeAll(c.elem, RawCells(1, cell).items).Panicked?;
  }

  /** A map of one entry, its other half null or empty. */
  lemma MapBuffer(c: CollectionType, inner: bytes, inKey: bool) returns (buf: bytes)
    requires c.Map? && |inner| <= I32_MAX
    requires Deserialize(if inKey then c.key else c.value, inner).Panicked?
    ensures DeserializeCollection(c, buf).Panicked? && |buf| == 12 + |inner|
  {
    hide Deserialize, ReadIntLength, ReadBytesOpt;
    var k, v := if inKey then Some(inner) else Some([]), if inKey then None else Some(inner);
    var first, second := WriteBytesOpt(k).value, WriteBytesOpt(v).value;
    buf := WriteIntLength(1).value + (first + second);
    EmptyDecodes(c.key);
    IntLengthRoundTrip(1, first + second);
    BytesOptRoundTrip(k, second);
    BytesOptRoundTrip(v, []);
    assert second + [] == second;
    var items := RawCells(2, first + second).items;
    assert RawCells(1, second).items == [v] + RawCells(0, []).items;
    assert items == [k] + RawCells(1, second).items;
    assert items[0] == k && items[1] == v;
    assert DecodeEntries(c, items).Panicked?;
  }

  lemma VectorBuffer(e: ColumnType, d: nat, inner: bytes) returns (buf: bytes)
    requires d > 0 && TypeSize(e).None? && 0 < |inner| < TWO64 && Deserialize(e, inner).Panicked?
    ensures DeserializeVector(e, d, buf).Panicked? && |buf| == |UnsignedVintEncode(|inner|)| + |inner|
  {
    hide Deserialize, UnsignedVintEncode, UnsignedVintDecode, ReadNBytes;
    buf := UnsignedVintEncode(|inner|) + (inner + []);
    UnsignedVintRoundTrip(|inner|, inner + []);
    VariableHead(inner, []);
    assert RawVariable(d, buf).items[0] == Some(inner);
    assert DecodeAll(e, RawVariable(d, buf).items).Panicked?;
  }

  lemma {:induction false} FieldsBuffer(fs: seq<Field>) returns (buf: bytes)
    requires MinFields(fs).Some?
    ensures DecodeFields(fs, RawFields(|fs|, buf).items).Panicked? && |buf| == MinFields(fs).value
    decreases fs
  {
    hide Deserialize, ReadBytesOpt, MinPanic;
    var head, tail := InCell(MinPanic(fs[0].typ)), MinFields(fs[1..]);
    if Least(head, tail) == head {
      var inner := PanicBuffer(fs[0].typ);
      buf := WriteBytesOpt(Some(inner)).value;
      BytesOptRoundTrip(Some(inner), []);
      assert buf + [] == buf;
      assert RawFields(|fs|, buf).items[0] == Some(inner);
    } else {
      var rest := FieldsBuffer(fs[1..]);
      buf := WriteBytesOpt(None).value + rest;
      BytesOptRoundTrip(None, rest);
      var items := RawFields(|fs|, buf).items;
      assert items[0] == None && items[1..] == RawFields(|fs| - 1, rest).items;
    }
  }

  lemma {:induction false} ElemsBuffer(ts: seq<ColumnType>) returns (buf: bytes)
    requires MinElems(ts).Some?
    ensures DecodeElems(ts, RawCells(|ts|, buf).items).Panicked? && |buf| == MinElems(ts).value
    decreases ts
  {
    hide Deserialize, ReadBytesOpt, MinPanic;
    var head, tail := InCell(MinPanic(ts[0])), MinElems(ts[1..]);
    if Least(head, tail) == head {
      var inner := PanicBuffer(ts[0]);
      buf := WriteBytesOpt(Some(inner)).value;
      BytesOptRoundTrip(Some(inner), []);
      assert buf + [] == buf;
      assert RawCells(|ts|, buf).items[0] == Some(inner);
    } else {
      var rest := ElemsBuffer(ts[1..]);
      buf := WriteBytesOpt(None).value + rest;
      BytesOptRoundTrip(None, rest);
      var items := RawCells(|ts|, buf).items;
      assert items[0] == None && items[1..] == RawCells(|ts| - 1, rest).items;
    }
  }

  /** A type that a vector lays out by its size and whose size fits never panics. */
  lemma FixedHasNone(t: ColumnType)
    requires TypeSize(t).Some? && !SizeOverflows(t)
    ensures MinPanic(t).None?
  {
  }

  /** Bytes of the shortest length that panic: the way to the panic is null or empty. */
  lemma {:induction false} PanicBuffer(t: ColumnType) returns (buf: bytes)
    requires MinPanic(t).Some?
    ensures Deserialize(t, buf).Panicked? && |buf| == MinPanic(t).value > 0
    decreases t
  {
    hide DeserializeCollection, DeserializeVector, RawFields, RawCells, DecodeFields, DecodeElems, UnsignedVintEncode;
    match t
    case Collection(frozen, c) =>
      if frozen {
        buf := [0];
      } else if c.Map? {
        var key, value := InCell(MinPanic(c.key)), InCell(MinPanic(c.value));
        var inKey := Least(key, value) == key;
        var inner := PanicBuffer(if inKey then c.key else c.value);
        buf := MapBuffer(c, inner, inKey);
      } else {
        var inner := PanicBuffer(c.elem);
        buf := ListBuffer(c, inner);
      }
    case Vector(e, d) =>
      if SizeOverflows(e) {
        buf := [0];
      } else {
        if TypeSize(e).Some? {
          FixedHasNone(e);
        }
        var inner := PanicBuffer(e);
        buf := VectorBuffer(e, d, inner);
      }
    case UserDefinedType(_, _, _, fs) => buf := FieldsBuffer(fs);
    case Tuple(ts) => buf := ElemsBuffer(ts);
  }

  /** Some bytes panic exactly when there is a shortest length for them, and none are shorter. */
  lemma PanicsExactlyWhen(t: ColumnType)
    ensures (exists buf: bytes :: Deserialize(t, buf).Panicked?) <==> MinPanic(t).Some?
    ensures forall buf: bytes :: Deserialize(t, buf).Panicked? ==> MinPanic(t).Some? && MinPanic(t).value <= |buf|
  {
    hide Deserialize, MinPanic;
    if MinPanic(t).Some? {
      var buf := PanicBuffer(t);
    }
    forall buf: bytes | Deserialize(t, buf).Panicked?
      ensures AtMost(MinPanic(t), |buf|)
    {
      NoShorterPanic(t, buf);
    }
  }

  // ------------------------------------------------------- reaching the panic

  /** Bytes that get to any part of the type, with everything else null or empty. */
  function Weight(t: ColumnType): (w: nat)
    ensures w > 0
  {
    match t
    case Native(_) => 1
    case Collection(_, c) => if c.Map? then 12 + Weight(c.key) + Weight(c.value) else 8 + Weight(c.elem)
    case Vector(e, _) => 9 + Weight(e)
    case UserDefinedType(_, _, _, fs) => 1 + FieldsWeight(fs)
    case Tuple(ts) => 1 + ElemsWeight(ts)
  }

  function FieldsWeight(fs: seq<Field>): (w: nat) {
    if fs == [] then 0 else 4 + Weight(fs[0].typ) + FieldsWeight(fs[1..])
  }

  function ElemsWeight(ts: seq<ColumnType>): (w: nat) {
    if ts == [] then 0 else 4 + Weight(ts[0]) + ElemsWeight(ts[1..])
  }

  lemma {:induction false} FieldReached(fs: seq<Field>, i: nat)
    requires i < |fs| && CanPanic(fs[i].typ) && FieldsWeight(fs) <= I32_MAX
    ensures AtMost(MinFields(fs), FieldsWeight(fs))
    decreases fs
  {
    if i == 0 {
      ReachedIfItFits(fs[0].typ);
    } else {
      FieldReached(fs[1..], i - 1);
    }
  }

  lemma {:induction false} ElemReached(ts: seq<ColumnType>, i: nat)
    requires i < |ts| && CanPanic(ts[i]) && ElemsWeight(ts) <= I32_MAX
    ensures AtMost(MinElems(ts), ElemsWeight(ts))
    decreases ts
  {
    if i == 0 {
      ReachedIfItFits(ts[0]);
    } else {
      ElemReached(ts[1..], i - 1);
    }
  }

  /** Where the way there fits a cell, a frozen collection or an overflowing size somewhere in the type is enough. */
  lemma {:induction false} ReachedIfItFits(t: ColumnType)
    requires CanPanic(t) && Weight(t) <= I32_MAX
    ensures AtMost(MinPanic(t), Weight(t))
    decreases t
  {
    hide UnsignedVintEncode;
    match t
    case Collection(frozen, c) =>
      if !frozen && c.Map? {
        ReachedIfItFits(if CanPanic(c.key) then c.key else c.value);
      } else if !frozen {
        ReachedIfItFits(c.elem);
      }
    case Vector(e, _) =>
      if !SizeOverflows(e) {
        ReachedIfItFits(e);
        EncodedLength(MinPanic(e).value);
      }
    case UserDefinedType(_, _, _, fs) =>
      var i :| 0 <= i < |fs| && CanPanic(fs[i].typ);
      FieldReached(fs, i);
    case Tuple(ts) =>
      var i :| 0 <= i < |ts| && CanPanic(ts[i]);
      ElemReached(ts, i);
  }
}
