/**
  The dynamic codec of CQL values: `serialize_cql_value` of
  scylla-cql/src/serialize/value.rs and `deser_cql_value` of
  scylla-cql/src/value.rs. Composite values are framed by module Cells.
 */
module ValueCodec {
  import opened Wire
  import opened Vint
  import opened CqlTypes
  import opened Cells

  // ------------------------------------------------------------ serialization

  /** `TypeSizePanic` is an overflow in computing the size of a vector's elements. */
  datatype SerError = TypeCheckFailed | SizeOverflow | WrongElementCount | TypeSizePanic

  type SerResult = Result<bytes, SerError>

  /** The contents of the cell of `v` as a `t`, without the cell's length. */
  function Serialize(v: CqlValue, t: ColumnType): (r: SerResult)
    decreases t, 1
  {
    match v
    case Empty => if SupportsEmpty(t) then Ok([]) else Err(TypeCheckFailed)
    case List(l) => SerializeVec(l, t)
    case Set(l) => SerializeVec(l, t)
    case Vector(l) => SerializeVec(l, t)
    case Map(m) => SerializeMap(m, t)
    case UserDefinedType(keyspace, name, values) => SerializeUdt(keyspace, name, values, t)
    case Tuple(vs) => SerializeTuple(vs, t)
    case _ => if t.Native? then SerializeNative(v, t.native) else Err(TypeCheckFailed)
  }

  /** Lists, sets and vectors of values all go by the type they are written as. */
  function SerializeVec(l: seq<CqlValue>, t: ColumnType): (r: SerResult)
    decreases t, 0
  {
    match t
    case Collection(frozen, typ) =>
      if frozen || typ.Map? then Err(TypeCheckFailed)
      else
        var parts :- SerializeAll(l, typ.elem);
        Counted(|l|, AsItems(parts))
    case Vector(e, d) =>
      if |l| != d then Err(WrongElementCount)
      else if SizeOverflows(e) then Err(TypeSizePanic)
      else
        var parts :- SerializeAll(l, e);
        if TypeSize(e).Some? then Ok(Concat(parts)) else LengthPrefixed(parts)
    case _ => Err(TypeCheckFailed)
  }

  function SerializeMap(m: seq<Entry>, t: ColumnType): (r: SerResult)
    decreases t, 0
  {
    if t.Collection? && !t.frozen && t.typ.Map? then
      var parts :- SerializeEntries(m, t.typ);
      Counted(|m|, AsItems(parts))
    else Err(TypeCheckFailed)
  }

  function SerializeUdt(keyspace: string, name: string, values: seq<NamedValue>, t: ColumnType)
    : (r: SerResult)
    decreases t, 0
  {
    if t.UserDefinedType? && t.keyspace == keyspace && t.name == name then
      if exists i :: 0 <= i < |values| && !HasField(t.fields, values[i].name) then
        Err(TypeCheckFailed)
      else
        var parts :- SerializeFields(PickFields(values, t.fields), t.fields);
        Celled(parts)
    else Err(TypeCheckFailed)
  }

  /** Fewer values than types are allowed. */
  function SerializeTuple(vs: seq<Option<CqlValue>>, t: ColumnType): (r: SerResult)
    decreases t, 0
  {
    if t.Tuple? then
      if |vs| > |t.elems| then Err(WrongElementCount)
      else
        var parts :- SerializeElems(vs, t.elems);
        Celled(parts)
    else Err(TypeCheckFailed)
  }

  /** Every part in a `[bytes]` cell of its own. */
  function Celled(parts: seq<Option<bytes>>): (r: SerResult)
    ensures r.Ok? <==> forall i :: 0 <= i < |parts| ==> FitsCell(parts[i])
  {
    if forall i :: 0 <= i < |parts| ==> FitsCell(parts[i]) then Ok(JoinCells(parts))
    else Err(SizeOverflow)
  }

  function Counted(n: nat, parts: seq<Option<bytes>>): (r: SerResult)
    ensures r.Ok? <==> n <= I32_MAX && Celled(parts).Ok?
    ensures r.Ok? ==> |r.value| >= 4
  {
    if n > I32_MAX then Err(SizeOverflow)
    else
      var body :- Celled(parts);
      Ok(WriteIntLength(n).value + body)
  }

  function LengthPrefixed(parts: seq<bytes>): (r: SerResult)
    ensures r.Ok? <==> forall i :: 0 <= i < |parts| ==> FitsWord(parts[i])
  {
    if forall i :: 0 <= i < |parts| ==> FitsWord(parts[i]) then Ok(JoinVariable(parts))
    else Err(SizeOverflow)
  }

  function SerializeAll(l: seq<CqlValue>, e: ColumnType): (r: Result<seq<bytes>, SerError>)
    ensures r.Ok? ==> |r.value| == |l|
    decreases e, 3, |l|
  {
    if l == [] then Ok([])
    else
      var head :- Serialize(l[0], e);
      var tail :- SerializeAll(l[1..], e);
      Ok([head] + tail)
  }

  /** Keys and values alternate. */
  function SerializeEntries(m: seq<Entry>, c: CollectionType): (r: Result<seq<bytes>, SerError>)
    requires c.Map?
    ensures r.Ok? ==> |r.value| == 2 * |m|
    decreases c, 3, |m|
  {
    if m == [] then Ok([])
    else
      var key :- Serialize(m[0].key, c.key);
      var value :- Serialize(m[0].value, c.value);
      var tail :- SerializeEntries(m[1..], c);
      Ok([key, value] + tail)
  }

  function SerializeNullable(v: Option<CqlValue>, t: ColumnType)
    : (r: Result<Option<bytes>, SerError>)
    decreases t, 2
  {
    if v.None? then Ok(None)
    else
      var contents :- Serialize(v.value, t);
      Ok(Some(contents))
  }

  function SerializeElems(vs: seq<Option<CqlValue>>, ts: seq<ColumnType>)
    : (r: Result<seq<Option<bytes>>, SerError>)
    requires |vs| <= |ts|
    ensures r.Ok? ==> |r.value| == |vs|
    decreases ts
  {
    if vs == [] then Ok([])
    else
      var head :- SerializeNullable(vs[0], ts[0]);
      var tail :- SerializeElems(vs[1..], ts[1..]);
      Ok([head] + tail)
  }

  function SerializeFields(vs: seq<Option<CqlValue>>, fs: seq<Field>)
    : (r: Result<seq<Option<bytes>>, SerError>)
    requires |vs| == |fs|
    ensures r.Ok? ==> |r.value| == |vs|
    decreases fs
  {
    if vs == [] then Ok([])
    else
      var head :- SerializeNullable(vs[0], fs[0].typ);
      var tail :- SerializeFields(vs[1..], fs[1..]);
      Ok([head] + tail)
  }

  predicate HasField(fs: seq<Field>, name: string) {
    exists i :: 0 <= i < |fs| && fs[i].name == name
  }

  /** Collecting the values by name into a map keeps the last of equal names. */
  function LastNamed(values: seq<NamedValue>, name: string): (v: Option<CqlValue>) {
    if values == [] then None
    else
      var last := values[|values| - 1];
      if last.name == name then last.value else LastNamed(values[..|values| - 1], name)
  }

  /** Each field takes its value out of the map, so a repeated field finds none. */
  function PickField(values: seq<NamedValue>, fs: seq<Field>, i: nat): (v: Option<CqlValue>)
    requires i < |fs|
  {
    if HasField(fs[..i], fs[i].name) then None else LastNamed(values, fs[i].name)
  }

  function PickFields(values: seq<NamedValue>, fs: seq<Field>): (vs: seq<Option<CqlValue>>)
    ensures |vs| == |fs|
    ensures forall i :: 0 <= i < |fs| ==> vs[i] == PickField(values, fs, i)
  {
    seq(|fs|, i requires 0 <= i < |fs| => PickField(values, fs, i))
  }

  function Plain(contents: bytes): (r: SerResult)
    ensures r.Ok? ==> r.value == contents
  {
    if |contents| <= I32_MAX then Ok(contents) else Err(SizeOverflow)
  }

  /** `exact_type_check!`. */
  function Exact(matches: bool, contents: bytes): (r: SerResult) {
    if matches then Ok(contents) else Err(TypeCheckFailed)
  }

  function SerializeNative(v: CqlValue, n: NativeType): (r: SerResult) {
    Pow256Values();
    match v
    case Ascii(s) => if n.Ascii? || n.Text? then Plain(s) else Err(TypeCheckFailed)
    case Text(s) => if n.Ascii? || n.Text? then Plain(s) else Err(TypeCheckFailed)
    case Blob(b) => if n.Blob? then Plain(b) else Err(TypeCheckFailed)
    case Varint(d) => if n.Varint? then Plain(d) else Err(TypeCheckFailed)
    case Boolean(b) => Exact(n.Boolean?, [if b then 1 else 0])
    case Counter(c) => Exact(n.Counter?, ToSignedBE(c, 8))
    case Decimal(d, scale) => Exact(n.Decimal?, ToSignedBE(scale, 4) + d)
    case Date(d) => Exact(n.Date?, ToBE(d, 4))
    case Double(d) => Exact(n.Double?, ToBE(d, 8))
    case Duration(m, d, ns) =>
      Exact(n.Duration?, VintEncode(m) + VintEncode(d) + VintEncode(ns))
    case Float(f) => Exact(n.Float?, ToBE(f, 4))
    case Int(i) => Exact(n.Int?, ToSignedBE(i, 4))
    case BigInt(i) => Exact(n.BigInt?, ToSignedBE(i, 8))
    case Timestamp(i) => Exact(n.Timestamp?, ToSignedBE(i, 8))
    case Inet(a) => Exact(n.Inet?, if a.V4? then a.octets4 else a.octets16)
    case SmallInt(i) => Exact(n.SmallInt?, ToSignedBE(i, 2))
    case TinyInt(i) => Exact(n.TinyInt?, ToSignedBE(i, 1))
    case Time(i) => Exact(n.Time?, ToSignedBE(i, 8))
    case Timeuuid(u) => Exact(n.Timeuuid?, u)
    case Uuid(u) => Exact(n.Uuid?, u)
    case _ => Err(TypeCheckFailed)
  }

  // ---------------------------------------------------------- deserialization

  /** `Panicked` is an `unreachable!` arm reached or an overflow in computing a size. */
  datatype Outcome<+T> = Done(value: T) | Failed | Panicked {
    predicate IsFailure() {
      !Done?
    }

    function PropagateFailure<U>(): (r: Outcome<U>)
      requires !Done?
    {
      if Failed? then Failed else Panicked
    }

    function Extract(): T
      requires Done?
    {
      value
    }
  }

  /** Decoding stops at the first part that fails; a failed read comes after the parts before it. */
  function Finish<T>(r: Outcome<T>, complete: bool): (o: Outcome<T>) {
    if r.Done? && !complete then Failed else r
  }

  function Deserialize(t: ColumnType, buf: bytes): (r: Outcome<CqlValue>)
    decreases t, 4
  {
    if buf == [] && !EmptyIsOrdinary(t) then Done(Empty)
    else
      match t
      case Native(n) => DeserializeNative(n, buf)
      case Collection(frozen, typ) => if frozen then Panicked else DeserializeCollection(typ, buf)
      case Vector(e, d) =>
        if SizeOverflows(e) then Panicked
        else
          var l :- DeserializeVector(e, d, buf);
          Done(CqlValue.Vector(l))
      case UserDefinedType(_, keyspace, name, fs) =>
        var fields :- DeserializeUdt(fs, buf);
        Done(CqlValue.UserDefinedType(keyspace, name, fields))
      case Tuple(ts) =>
        var vs :- DeserializeTuple(ts, buf);
        Done(CqlValue.Tuple(vs))
  }

  function DeserializeCollection(c: CollectionType, buf: bytes): (r: Outcome<CqlValue>)
    decreases c, 4
  {
    match ReadIntLength(buf)
    case Err(_) => Failed
    case Ok(count) =>
      match c {
        case List(e) =>
          var l :- DeserializeCells(e, count.value, count.rest);
          Done(CqlValue.List(l))
        case Set(e) =>
          var l :- DeserializeCells(e, count.value, count.rest);
          Done(CqlValue.Set(l))
        case Map(_, _) =>
          var m :- DeserializeMap(c, count.value, count.rest);
          Done(CqlValue.Map(m))
      }
  }

  function DeserializeCells(e: ColumnType, n: nat, buf: bytes): (r: Outcome<seq<CqlValue>>)
    decreases e, 7
  {
    var raw := RawCells(n, buf);
    Finish(DecodeAll(e, raw.items), raw.complete)
  }

  function DeserializeMap(c: CollectionType, n: nat, buf: bytes): (r: Outcome<seq<Entry>>)
    requires c.Map?
    decreases c, 3
  {
    var raw := RawCells(2 * n, buf);
    Finish(DecodeEntries(c, raw.items), raw.complete)
  }

  function RawVector(e: ColumnType, n: nat, buf: bytes): (raw: Raw) {
    match TypeSize(e)
    case Some(size) => RawFixed(size, n, buf)
    case None => RawVariable(n, buf)
  }

  function DeserializeVector(e: ColumnType, n: nat, buf: bytes): (r: Outcome<seq<CqlValue>>)
    decreases e, 7
  {
    var raw := RawVector(e, n, buf);
    Finish(DecodeAll(e, raw.items), raw.complete)
  }

  function DeserializeUdt(fs: seq<Field>, buf: bytes): (r: Outcome<seq<NamedValue>>)
    decreases fs, 4
  {
    var raw := RawFields(|fs|, buf);
    Finish(DecodeFields(fs, raw.items), raw.complete)
  }

  function DeserializeTuple(ts: seq<ColumnType>, buf: bytes): (r: Outcome<seq<Option<CqlValue>>>)
    decreases ts, 4
  {
    var raw := RawCells(|ts|, buf);
    Finish(DecodeElems(ts, raw.items), raw.complete)
  }

  /** `CqlValue::deserialize`: a null is not a value. */
  function DecodeValue(t: ColumnType, item: Option<bytes>): (r: Outcome<CqlValue>)
    decreases t, 5
  {
    if item.None? then Failed else Deserialize(t, item.value)
  }

  /** `Option::<CqlValue>::deserialize`. */
  function DecodeNullable(t: ColumnType, item: Option<bytes>): (r: Outcome<Option<CqlValue>>)
    decreases t, 5
  {
    if item.None? then Done(None)
    else
      var v :- Deserialize(t, item.value);
      Done(Some(v))
  }

  function DecodeAll(e: ColumnType, items: seq<Option<bytes>>): (r: Outcome<seq<CqlValue>>)
    ensures r.Done? ==> |r.value| == |items|
    decreases e, 6, |items|
  {
    if items == [] then Done([])
    else
      var head :- DecodeValue(e, items[0]);
      var tail :- DecodeAll(e, items[1..]);
      Done([head] + tail)
  }

  /** A key without a value is never decoded. */
  function DecodeEntries(c: CollectionType, items: seq<Option<bytes>>): (r: Outcome<seq<Entry>>)
    requires c.Map?
    ensures r.Done? ==> |r.value| == |items| / 2
    decreases c, 2, |items|
  {
    if |items| < 2 then Done([])
    else
      var key :- DecodeValue(c.key, items[0]);
      var value :- DecodeValue(c.value, items[1]);
      var tail :- DecodeEntries(c, items[2..]);
      Done([Entry(key, value)] + tail)
  }

  function DecodeElems(ts: seq<ColumnType>, items: seq<Option<bytes>>)
    : (r: Outcome<seq<Option<CqlValue>>>)
    requires |items| <= |ts|
    ensures r.Done? ==> |r.value| == |items|
    decreases ts, 3
  {
    if items == [] then Done([])
    else
      var head :- DecodeNullable(ts[0], items[0]);
      var tail :- DecodeElems(ts[1..], items[1..]);
      Done([head] + tail)
  }

  function DecodeFields(fs: seq<Field>, items: seq<Option<bytes>>): (r: Outcome<seq<NamedValue>>)
    requires |items| <= |fs|
    ensures r.Done? ==> |r.value| == |items|
    ensures r.Done? ==> forall i :: 0 <= i < |items| ==> r.value[i].name == fs[i].name
    decreases fs, 3
  {
    if items == [] then Done([])
    else
      var head :- DecodeNullable(fs[0].typ, items[0]);
      var tail :- DecodeFields(fs[1..], items[1..]);
      Done([NamedValue(fs[0].name, head)] + tail)
  }

  function DeserializeNative(n: NativeType, buf: bytes): (r: Outcome<CqlValue>)
    ensures !r.Panicked?
  {
    Pow256Values();
    match n
    case Ascii => if IsAscii(buf) && Utf8Valid(buf) then Done(CqlValue.Ascii(buf)) else Failed
    case Text => if Utf8Valid(buf) then Done(CqlValue.Text(buf)) else Failed
    case Blob => Done(CqlValue.Blob(buf))
    case Varint => Done(CqlValue.Varint(buf))
    case Boolean => if |buf| == 1 then Done(CqlValue.Boolean(buf[0] != 0)) else Failed
    case Counter => if |buf| == 8 then Done(CqlValue.Counter(FromSignedBE(buf))) else Failed
    case Date => if |buf| == 4 then Done(CqlValue.Date(FromBE(buf))) else Failed
    case Decimal =>
      if |buf| < 4 then Failed else Done(CqlValue.Decimal(buf[4..], FromSignedBE(buf[..4])))
    case Double => if |buf| == 8 then Done(CqlValue.Double(FromBE(buf))) else Failed
    case Duration => DeserializeDuration(buf)
    case Float => if |buf| == 4 then Done(CqlValue.Float(FromBE(buf))) else Failed
    case Int => if |buf| == 4 then Done(CqlValue.Int(FromSignedBE(buf))) else Failed
    case BigInt => if |buf| == 8 then Done(CqlValue.BigInt(FromSignedBE(buf))) else Failed
    case Timestamp => if |buf| == 8 then Done(CqlValue.Timestamp(FromSignedBE(buf))) else Failed
    case Inet =>
      if |buf| == 4 then Done(CqlValue.Inet(V4(buf)))
      else if |buf| == 16 then Done(CqlValue.Inet(V6(buf)))
      else Failed
    case SmallInt => if |buf| == 2 then Done(CqlValue.SmallInt(FromSignedBE(buf))) else Failed
    case TinyInt => if |buf| == 1 then Done(CqlValue.TinyInt(FromSignedBE(buf))) else Failed
    case Time =>
      if |buf| == 8 && 0 <= FromSignedBE(buf) <= MAX_TIME
      then Done(CqlValue.Time(FromSignedBE(buf))) else Failed
    case Timeuuid => if |buf| == 16 then Done(CqlValue.Timeuuid(buf)) else Failed
    case Uuid => if |buf| == 16 then Done(CqlValue.Uuid(buf)) else Failed
  }

  predicate FitsI32(v: int) {
    -0x8000_0000 <= v <= 0x7fff_ffff
  }

  function DeserializeDuration(buf: bytes): (r: Outcome<CqlValue>)
    ensures !r.Panicked?
  {
    var months := VintDecode(buf);
    if months.Err? || !FitsI32(months.value.value) then Failed
    else
      var days := VintDecode(months.value.rest);
      if days.Err? || !FitsI32(days.value.value) then Failed
      else
        var ns := VintDecode(days.value.rest);
        if ns.Err? then Failed
        else Done(CqlValue.Duration(months.value.value, days.value.value, ns.value.value))
  }
}
