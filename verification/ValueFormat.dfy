/**
  Which values are written as which types, what empty cells and booleans mean, what is
  ignored, and values byte by byte. Models scylla-cql/src/serialize/value.rs and
  `deser_cql_value` of scylla-cql/src/value.rs.
 */
module ValueFormat {
  import opened Wire
  import opened Vint
  import opened CqlTypes
  import opened Cells
  import opened ValueCodec
  import opened Reserialize
  import opened WireFormat

  // ---------------------------------------------------------------- empty cells

  /** No bytes are an empty ascii, blob or text, and the empty value of every other type. */
  lemma EmptyCell(t: ColumnType)
    ensures Deserialize(t, [])
            == if t == Native(NativeType.Ascii) then Done(CqlValue.Ascii([]))
               else if t == Native(NativeType.Blob) then Done(CqlValue.Blob([]))
               else if t == Native(NativeType.Text) then Done(CqlValue.Text([]))
               else Done(Empty)
  {
  }

  /** The empty value is refused for counters, durations, collections and user-defined types, and for nothing else. */
  lemma EmptyWritten(t: ColumnType)
    ensures Serialize(Empty, t)
            == if t.Collection? || t.UserDefinedType? || t == Native(NativeType.Counter)
                  || t == Native(NativeType.Duration)
               then Err(TypeCheckFailed) else Ok([])
  {
  }

  /** Zero is false and everything else is true. */
  lemma BooleanMeaning(b: byte)
    ensures Deserialize(Native(NativeType.Boolean), [b]) == Done(CqlValue.Boolean(b != 0))
    ensures Serialize(CqlValue.Boolean(b != 0), Native(NativeType.Boolean)) == Ok([if b != 0 then 1 else 0])
  {
  }

  // -------------------------------------------------------------- scalar cells

  /** How many bytes each scalar takes. */
  lemma ScalarWidths(n: NativeType, buf: bytes)
    ensures DeserializeNative(n, buf).Done? ==>
              match n
              case Boolean | TinyInt => |buf| == 1
              case SmallInt => |buf| == 2
              case Int | Date | Float => |buf| == 4
              case BigInt | Counter | Timestamp | Double | Time => |buf| == 8
              case Uuid | Timeuuid => |buf| == 16
              case Inet => |buf| == 4 || |buf| == 16
              case Decimal => |buf| >= 4
              case Ascii => Utf8Valid(buf) && forall i :: 0 <= i < |buf| ==> buf[i] < 128
              case Text => Utf8Valid(buf)
              case _ => true
  {
  }

  /** One and two bytes are tinyint and smallint, signed. */
  lemma ShortNumbers(a: byte, b: byte)
    ensures DeserializeNative(NativeType.TinyInt, [a]) == Done(CqlValue.TinyInt(if a < 128 then a else a - 256))
    ensures var u: int := Number2([a, b]);
            DeserializeNative(NativeType.SmallInt, [a, b])
            == Done(CqlValue.SmallInt(if u < 0x8000 then u else u - 0x1_0000))
  {
    Pow256Values();
    assert [a][..0] == [] && FromBE([a]) == a;
    TwoBytes([a, b]);
  }

  /** Four bytes are an int, signed, a date or the bits of a float. */
  lemma FourByteNumbers(buf: bytes)
    requires |buf| == 4
    ensures var u: int := Number4(buf);
            && DeserializeNative(NativeType.Int, buf)
               == Done(CqlValue.Int(if u < 0x8000_0000 then u else u - 0x1_0000_0000))
            && DeserializeNative(NativeType.Date, buf) == Done(CqlValue.Date(u))
            && DeserializeNative(NativeType.Float, buf) == Done(CqlValue.Float(u))
            && DeserializeNative(NativeType.Inet, buf) == Done(CqlValue.Inet(V4(buf)))
  {
    hide FromBE, Number4;
    Pow256Values();
    FourBytes(buf);
  }

  /** Eight bytes are a bigint, counter or timestamp, signed, or the bits of a double. */
  lemma EightByteNumbers(buf: bytes)
    requires |buf| == 8
    ensures var u: int := Number4(buf) * 0x1_0000_0000 + Number4(buf[4..]);
            var v: int := if u < 0x8000_0000_0000_0000 then u else u - 0x1_0000_0000_0000_0000;
            && DeserializeNative(NativeType.BigInt, buf) == Done(CqlValue.BigInt(v))
            && DeserializeNative(NativeType.Counter, buf) == Done(CqlValue.Counter(v))
            && DeserializeNative(NativeType.Timestamp, buf) == Done(CqlValue.Timestamp(v))
            && DeserializeNative(NativeType.Double, buf) == Done(CqlValue.Double(u))
  {
    hide FromBE, Number4;
    Pow256Values();
    FourBytes(buf[..4]);
    FourBytes(buf[4..]);
    FromBEConcat(buf[..4], buf[4..]);
    assert buf[..4] + buf[4..] == buf;
    assert Number4(buf[..4]) == Number4(buf) by {
      SameFour(buf);
    }
  }

  lemma SameFour(buf: bytes)
    requires |buf| >= 4
    ensures Number4(buf[..4]) == Number4(buf)
  {
  }

  /** Sixteen bytes are a uuid, a timeuuid or an IPv6 address as they are. */
  lemma SixteenBytes(buf: bytes)
    requires |buf| == 16
    ensures DeserializeNative(NativeType.Uuid, buf) == Done(CqlValue.Uuid(buf))
    ensures DeserializeNative(NativeType.Timeuuid, buf) == Done(CqlValue.Timeuuid(buf))
    ensures DeserializeNative(NativeType.Inet, buf) == Done(CqlValue.Inet(V6(buf)))
  {
  }

  /** The last nanosecond of the day. */
  lemma TimeOfDay(nanos: i64)
    ensures Deserialize(Native(NativeType.Time), Serialize(CqlValue.Time(nanos), Native(NativeType.Time)).value)
            == if 0 <= nanos < 24 * 60 * 60 * 1_000_000_000 then Done(CqlValue.Time(nanos)) else Failed
  {
    hide FromSignedBE, ToSignedBE;
    Pow256Values();
    FromToSignedBE(nanos, 8);
  }

  // ------------------------------------------------------------ what is accepted

  /** The native type of a scalar value. */
  function KindOf(v: CqlValue): (n: Option<NativeType>) {
    match v
    case Ascii(_) => Some(NativeType.Ascii)
    case Boolean(_) => Some(NativeType.Boolean)
    case Blob(_) => Some(NativeType.Blob)
    case Counter(_) => Some(NativeType.Counter)
    case Decimal(_, _) => Some(NativeType.Decimal)
    case Date(_) => Some(NativeType.Date)
    case Double(_) => Some(NativeType.Double)
    case Duration(_, _, _) => Some(NativeType.Duration)
    case Float(_) => Some(NativeType.Float)
    case Int(_) => Some(NativeType.Int)
    case BigInt(_) => Some(NativeType.BigInt)
    case Text(_) => Some(NativeType.Text)
    case Timestamp(_) => Some(NativeType.Timestamp)
    case Inet(_) => Some(NativeType.Inet)
    case SmallInt(_) => Some(NativeType.SmallInt)
    case TinyInt(_) => Some(NativeType.TinyInt)
    case Time(_) => Some(NativeType.Time)
    case Timeuuid(_) => Some(NativeType.Timeuuid)
    case Uuid(_) => Some(NativeType.Uuid)
    case Varint(_) => Some(NativeType.Varint)
    case _ => None
  }

  predicate IsString(n: NativeType) {
    n.Ascii? || n.Text?
  }

  predicate Unbounded(n: NativeType) {
    n.Ascii? || n.Text? || n.Blob? || n.Varint?
  }

  /** A scalar is accepted for its own native type, the two kinds of strings for each other, if it fits. */
  lemma ScalarAcceptedExactlyWhen(v: CqlValue, n: NativeType)
    requires IsScalar(v)
    ensures KindOf(v).Some?
    ensures var k, r := KindOf(v).value, Serialize(v, Native(n));
            && (r == Err(TypeCheckFailed) <==> k != n && !(IsString(k) && IsString(n)))
            && (r.Ok? <==> r != Err(TypeCheckFailed) && (Unbounded(k) ==> |ContentsOf(v)| <= I32_MAX))
            && (r.Ok? && Unbounded(k) ==> r.value == ContentsOf(v))
  {
    hide ContentsOf, Serialize, SerializeNative;
    ScalarIsNative(v, n);
    if Unbounded(KindOf(v).value) {
      UnboundedAccepted(v, n);
    } else {
      FixedAccepted(v, n);
    }
  }

  lemma UnboundedAccepted(v: CqlValue, n: NativeType)
    requires v.Ascii? || v.Text? || v.Blob? || v.Varint?
    ensures var k, r := KindOf(v).value, SerializeNative(v, n);
            && (r == Err(TypeCheckFailed) <==> k != n && !(IsString(k) && IsString(n)))
            && (r.Ok? <==> r != Err(TypeCheckFailed) && |ContentsOf(v)| <= I32_MAX)
            && (r.Ok? ==> r.value == ContentsOf(v))
  {
    hide ToBE, ToSignedBE, VintEncode, Pow256, FitsSigned;
  }

  lemma FixedAccepted(v: CqlValue, n: NativeType)
    requires KindOf(v).Some? && !Unbounded(KindOf(v).value)
    ensures SerializeNative(v, n).Ok? <==> KindOf(v).value == n
    ensures !SerializeNative(v, n).Ok? ==> SerializeNative(v, n) == Err(TypeCheckFailed)
  {
    hide ToBE, ToSignedBE, VintEncode, Pow256, FitsSigned;
  }

  function ContentsOf(v: CqlValue): (bs: bytes) {
    match v
    case Ascii(s) => s
    case Text(s) => s
    case Blob(b) => b
    case Varint(d) => d
    case _ => []
  }

  /** No scalar is accepted for a composite type, and nothing for a frozen collection. */
  lemma CompositeRefuses(v: CqlValue, t: ColumnType, c: CollectionType)
    ensures IsScalar(v) && !t.Native? ==> Serialize(v, t) == Err(TypeCheckFailed)
    ensures Serialize(v, Collection(true, c)) == Err(TypeCheckFailed)
  {
    hide SerializeNative;
  }

  /** A vector needs as many elements as its type says, a tuple has at most as many. */
  lemma CountsRefused(l: seq<CqlValue>, e: ColumnType, d: u16, vs: seq<Option<CqlValue>>, ts: seq<ColumnType>)
    ensures |l| != d ==> Serialize(CqlValue.Vector(l), ColumnType.Vector(e, d)) == Err(WrongElementCount)
    ensures |vs| > |ts| ==> Serialize(CqlValue.Tuple(vs), ColumnType.Tuple(ts)) == Err(WrongElementCount)
  {
  }

  /** A user-defined value of another name, or with a field that the type does not have, is refused. */
  lemma UdtRefused(keyspace: string, name: string, values: seq<NamedValue>, t: ColumnType)
    requires t.UserDefinedType?
    requires || t.keyspace != keyspace || t.name != name
             || exists i :: 0 <= i < |values| && forall j :: 0 <= j < |t.fields| ==> t.fields[j].name != values[i].name
    ensures Serialize(CqlValue.UserDefinedType(keyspace, name, values), t) == Err(TypeCheckFailed)
  {
    if t.keyspace == keyspace && t.name == name {
      var i :| 0 <= i < |values| && forall j :: 0 <= j < |t.fields| ==> t.fields[j].name != values[i].name;
      assert !HasField(t.fields, values[i].name);
    }
  }

  /** Of two values with the same name the last one is taken. */
  lemma LastNameWins(keyspace: string, name: string, f: Field, x: Option<CqlValue>, y: Option<CqlValue>)
    ensures var t := ColumnType.UserDefinedType(false, keyspace, name, [f]);
            Serialize(CqlValue.UserDefinedType(keyspace, name, [NamedValue(f.name, x), NamedValue(f.name, y)]), t)
            == Serialize(CqlValue.UserDefinedType(keyspace, name, [NamedValue(f.name, y)]), t)
  {
    hide SerializeFields;
    var t := ColumnType.UserDefinedType(false, keyspace, name, [f]);
    var one, two := [NamedValue(f.name, y)], [NamedValue(f.name, x), NamedValue(f.name, y)];
    assert HasField([f], [f][0].name);
    assert PickFields(one, [f]) == PickFields(two, [f]);
    assert Serialize(CqlValue.UserDefinedType(keyspace, name, one), t) == SerializeUdt(keyspace, name, one, t);
    assert Serialize(CqlValue.UserDefinedType(keyspace, name, two), t) == SerializeUdt(keyspace, name, two, t);
  }

  // ------------------------------------------------------------- what is ignored

  /** Cells that were read stay as they are when more bytes follow. */
  lemma {:induction false} MoreAfterCells(n: nat, buf: bytes, extra: bytes)
    requires RawCells(n, buf).complete
    ensures RawCells(n, buf + extra) == RawCells(n, buf)
    decreases n
  {
    hide ReadBytesOpt;
    if n > 0 {
      MoreAfterCell(buf, extra);
      MoreAfterCells(n - 1, ReadBytesOpt(buf).value.rest, extra);
    }
  }

  lemma MoreAfterCell(buf: bytes, extra: bytes)
    requires ReadBytesOpt(buf).Ok?
    ensures var cell := ReadBytesOpt(buf).value;
            ReadBytesOpt(buf + extra) == Ok(Read(cell.value, cell.rest + extra))
  {
    hide ReadBytesOpt;
    BytesOptMeaning(buf);
    BytesOptMeaning(buf + extra);
    var all := buf + extra;
    assert all[4..] == buf[4..] + extra;
    assert Number4(all) == Number4(buf);
    if buf[0] < 0x80 {
      var end := 4 + Number4(buf);
      assert all[4..end] == buf[4..end] && all[end..] == buf[end..] + extra;
    }
  }

  /** Whatever follows the cells of a decoded tuple, list, set or map is ignored. */
  lemma ExtraBytesIgnored(t: ColumnType, buf: bytes, extra: bytes)
    requires t.Tuple? || t.Collection?
    requires buf != [] && Deserialize(t, buf).Done?
    ensures Deserialize(t, buf + extra) == Deserialize(t, buf)
  {
    if t.Tuple? {
      ExtraAfterTuple(t.elems, buf, extra);
    } else {
      ExtraAfterCollection(t.typ, buf, extra);
    }
  }

  lemma ExtraAfterTuple(ts: seq<ColumnType>, buf: bytes, extra: bytes)
    requires DeserializeTuple(ts, buf).Done?
    ensures DeserializeTuple(ts, buf + extra) == DeserializeTuple(ts, buf)
  {
    hide RawCells, DecodeElems;
    MoreAfterCells(|ts|, buf, extra);
  }

  lemma ExtraAfterCollection(c: CollectionType, buf: bytes, extra: bytes)
    requires DeserializeCollection(c, buf).Done?
    ensures DeserializeCollection(c, buf + extra) == DeserializeCollection(c, buf)
  {
    hide RawCells, DecodeAll, DecodeEntries, ReadIntLength;
    IntLengthMeaning(buf);
    IntLengthMeaning(buf + extra);
    var count := ReadIntLength(buf).value;
    assert (buf + extra)[4..] == buf[4..] + extra && Number4(buf + extra) == Number4(buf);
    MoreAfterCells(if c.Map? then 2 * count.value else count.value, count.rest, extra);
  }

  // ---------------------------------------------------------------- byte by byte

  lemma SmallInt4(v: byte)
    ensures FitsSigned(v, 4) && ToSignedBE(v, 4) == [0, 0, 0, v]
  {
    hide FromSignedBE;
    Pow256Values();
    var bs := ToSignedBE(v, 4);
    FromToSignedBE(v, 4);
    SignedFour(bs);
    assert bs == [bs[0], bs[1], bs[2], bs[3]];
  }

  lemma SmallVint(v: nat)
    requires v < 64
    ensures VintEncode(v) == [2 * v]
  {
    hide UnsignedVintEncode;
    EncodedLength(2 * v);
    ShortForm(2 * v);
  }

  lemma ShortForm(u: u64)
    requires u < 128
    ensures UnsignedVintEncode(u) == [u]
  {
    hide UnsignedVintEncode, Pow2;
    Pow2Values();
    EncodedLength(u);
    var n := |UnsignedVintEncode(u)|;
    if n >= 2 {
      Pow2Monotone(7, 7 * (n - 1));
      assert false;
    }
    OneByte(u);
  }

  /** A decimal is its scale and then its digits, a duration its months, days and nanoseconds. */
  lemma DecimalAndDuration(digits: bytes, scale: byte, months: nat, days: nat, ns: nat)
    requires months < 64 && days < 64 && ns < 64
    ensures Serialize(CqlValue.Decimal(digits, scale), Native(NativeType.Decimal)) == Ok([0, 0, 0, scale] + digits)
    ensures Serialize(CqlValue.Duration(months, days, ns), Native(NativeType.Duration))
            == Ok([2 * months, 2 * days, 2 * ns])
  {
    hide ToSignedBE, VintEncode;
    SmallInt4(scale);
    SmallVint(months);
    SmallVint(days);
    SmallVint(ns);
    assert VintEncode(months) + VintEncode(days) + VintEncode(ns) == [2 * months, 2 * days, 2 * ns];
  }

  lemma CellBytes(v: Option<bytes>)
    requires v.Some? ==> |v.value| < 256
    ensures WriteBytesOpt(v).Ok?
    ensures WriteBytesOpt(v).value == if v.None? then [255, 255, 255, 255] else [0, 0, 0, |v.value|] + v.value
  {
    hide WriteBytesOpt;
    BytesOptWritten(v);
    if v.Some? {
      var w := WriteBytesOpt(v).value;
      assert w == [w[0], w[1], w[2], w[3]] + w[4..];
    }
  }

  /** The contents in a cell of their own, for contents of less than 256 bytes. */
  function Cell1(p: bytes): (bs: bytes)
    requires |p| < 256
  {
    [0, 0, 0, |p|] + p
  }

  lemma OneCell(p: bytes)
    requires |p| < 256
    ensures Celled([Some(p)]) == Ok(Cell1(p))
  {
    hide WriteBytesOpt;
    var items := [Some(p)];
    CellBytes(items[0]);
    assert items[1..] == [] && JoinCells([]) == [];
    assert JoinCells(items) == WriteBytesOpt(items[0]).value + [];
    assert Cell1(p) + [] == Cell1(p);
  }

  lemma TwoCells(a: Option<bytes>, b: Option<bytes>)
    requires (a.Some? ==> |a.value| < 256) && (b.Some? ==> |b.value| < 256)
    ensures Celled([a, b]) == Ok(WriteBytesOpt(a).value + WriteBytesOpt(b).value)
  {
    hide WriteBytesOpt;
    var items := [a, b];
    assert items[1..] == [b] && [b][1..] == [];
    assert JoinCells([b]) == WriteBytesOpt(b).value + JoinCells([]);
    assert JoinCells(items) == WriteBytesOpt(a).value + JoinCells([b]);
    assert WriteBytesOpt(b).value + [] == WriteBytesOpt(b).value;
  }

  lemma CountOne(items: seq<Option<bytes>>)
    requires Celled(items).Ok?
    ensures Counted(1, items) == Ok([0, 0, 0, 1] + Celled(items).value)
  {
    hide ToSignedBE, Celled;
    SmallInt4(1);
  }

  /** A list or set of one element: the count, the length of the element and the element. */
  lemma ListBytes(v: CqlValue, c: CollectionType, p: bytes)
    requires !c.Map? && Serialize(v, c.elem) == Ok(p) && |p| < 256
    ensures Serialize(CqlValue.List([v]), Collection(false, c)) == Ok([0, 0, 0, 1] + Cell1(p))
  {
    hide Counted, Celled, SerializeAll;
    OnePart(v, c.elem, p);
    OneCell(p);
    CountOne([Some(p)]);
    assert AsItems([p]) == [Some(p)];
    assert Serialize(CqlValue.List([v]), Collection(false, c)) == SerializeVec([v], Collection(false, c));
  }

  lemma OnePart(v: CqlValue, e: ColumnType, p: bytes)
    requires Serialize(v, e) == Ok(p)
    ensures SerializeAll([v], e) == Ok([p])
  {
    hide Serialize;
    assert [v][1..] == [] && [p] + [] == [p];
  }

  /** A map of one entry: the key comes first. */
  lemma MapBytes(k: CqlValue, v: CqlValue, c: CollectionType, p: bytes, q: bytes)
    requires c.Map? && Serialize(k, c.key) == Ok(p) && Serialize(v, c.value) == Ok(q) && |p| < 256 && |q| < 256
    ensures Serialize(CqlValue.Map([Entry(k, v)]), Collection(false, c)) == Ok([0, 0, 0, 1] + (Cell1(p) + Cell1(q)))
  {
    hide Counted, Celled, SerializeEntries, WriteBytesOpt;
    OneEntry(k, v, c, p, q);
    TwoCells(Some(p), Some(q));
    CellBytes(Some(p));
    CellBytes(Some(q));
    CountOne([Some(p), Some(q)]);
    assert AsItems([p, q]) == [Some(p), Some(q)];
    assert Serialize(CqlValue.Map([Entry(k, v)]), Collection(false, c))
           == SerializeMap([Entry(k, v)], Collection(false, c));
  }

  lemma OneEntry(k: CqlValue, v: CqlValue, c: CollectionType, p: bytes, q: bytes)
    requires c.Map? && Serialize(k, c.key) == Ok(p) && Serialize(v, c.value) == Ok(q)
    ensures SerializeEntries([Entry(k, v)], c) == Ok([p, q])
  {
    hide Serialize;
    assert [Entry(k, v)][1..] == [] && [p, q] + [] == [p, q];
  }

  /** A tuple of a value and a null: no count, the null as the length -1. */
  lemma TupleBytes(v: CqlValue, s: ColumnType, t: ColumnType, p: bytes)
    requires Serialize(v, s) == Ok(p) && |p| < 256
    ensures Serialize(CqlValue.Tuple([Some(v), None]), ColumnType.Tuple([s, t])) == Ok(Cell1(p) + [255, 255, 255, 255])
  {
    hide Celled, SerializeElems, WriteBytesOpt;
    ValueAndNull(v, s, t, p);
    TwoCells(Some(p), None);
    CellBytes(Some(p));
    CellBytes(None);
    var vs, ts := [Some(v), None], [s, t];
    assert Serialize(CqlValue.Tuple(vs), ColumnType.Tuple(ts)) == SerializeTuple(vs, ColumnType.Tuple(ts));
  }

  lemma ValueAndNull(v: CqlValue, s: ColumnType, t: ColumnType, p: bytes)
    requires Serialize(v, s) == Ok(p)
    ensures SerializeElems([Some(v), None], [s, t]) == Ok([Some(p), None])
  {
    hide Serialize;
    var vs, ts := [Some(v), None], [s, t];
    var none: seq<Option<bytes>> := [None];
    assert vs[1..] == [None] && ts[1..] == [t] && vs[1..][1..] == [] && none + [] == none;
    assert SerializeElems(vs[1..], ts[1..]) == Ok(none);
    assert [Some(p)] + none == [Some(p), None];
  }
}
