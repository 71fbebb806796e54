/**
  CQL types and values. Models `ColumnType` of
  scylla-cql/src/frame/response/result.rs and `CqlValue` of scylla-cql/src/value.rs.
  Strings are UTF-8 bytes and floats are their bit patterns.
 */
module CqlTypes {
  import opened Wire
  import opened Vint

  type u16 = x: int | 0 <= x < 0x1_0000
  type u32 = x: int | 0 <= x < 0x1_0000_0000
  type i8 = x: int | -0x80 <= x < 0x80
  type i16 = x: int | -0x8000 <= x < 0x8000
  type i32 = x: int | -0x8000_0000 <= x < 0x8000_0000
  type Str = s: bytes | Utf8Valid(s) witness []
  type Octets4 = s: bytes | |s| == 4 witness [0, 0, 0, 0]
  type Octets16 = s: bytes | |s| == 16 witness [0, 0, 0, 0, 0, 0, 0, 0, 0, 0, 0, 0, 0, 0, 0, 0]

  datatype NativeType =
    | Ascii | Boolean | Blob | Counter | Date | Decimal | Double | Duration | Float | Int
    | BigInt | Text | Timestamp | Inet | SmallInt | TinyInt | Time | Timeuuid | Uuid | Varint

  datatype CollectionType =
    | List(elem: ColumnType)
    | Map(key: ColumnType, value: ColumnType)
    | Set(elem: ColumnType)

  datatype Field = Field(name: string, typ: ColumnType)

  datatype ColumnType =
    | Native(native: NativeType)
    | Collection(frozen: bool, typ: CollectionType)
    | Vector(elem: ColumnType, dimensions: u16)
    | UserDefinedType(udtFrozen: bool, keyspace: string, name: string, fields: seq<Field>)
    | Tuple(elems: seq<ColumnType>)

  datatype IpAddr = V4(octets4: Octets4) | V6(octets16: Octets16)

  datatype NamedValue = NamedValue(name: string, value: Option<CqlValue>)

  datatype Entry = Entry(key: CqlValue, value: CqlValue)

  datatype CqlValue =
    | Ascii(str: Str)
    | Boolean(b: bool)
    | Blob(raw: bytes)
    | Counter(count: i64)
    | Decimal(unscaled: bytes, scale: i32)
    | Date(days: u32)
    | Double(bits64: u64)
    | Duration(months: i32, days32: i32, nanoseconds: i64)
    | Empty
    | Float(bits32: u32)
    | Int(int32: i32)
    | BigInt(int64: i64)
    | Text(str: Str)
    | Timestamp(millis: i64)
    | Inet(addr: IpAddr)
    | List(items: seq<CqlValue>)
    | Map(entries: seq<Entry>)
    | Set(items: seq<CqlValue>)
    | UserDefinedType(keyspace: string, name: string, fields: seq<NamedValue>)
    | SmallInt(int16: i16)
    | TinyInt(int8: i8)
    | Time(nanos: i64)
    | Timeuuid(uuid: Octets16)
    | Tuple(elems: seq<Option<CqlValue>>)
    | Uuid(uuid: Octets16)
    | Varint(digits: bytes)
    | Vector(items: seq<CqlValue>)

  const MAX_TIME: int := 86399999999999

  predicate IsAscii(s: bytes) {
    forall i :: 0 <= i < |s| ==> s[i] < 0x80
  }

  /** The size a vector gives its elements, if it treats them as fixed-length. */
  function TypeSize(t: ColumnType): (size: Option<nat>) {
    match t
    case Native(n) =>
      match n {
        case Boolean => Some(1)
        case Float => Some(4)
        case Int => Some(4)
        case Double => Some(8)
        case BigInt => Some(8)
        case Timestamp => Some(8)
        case Timeuuid => Some(16)
        case Uuid => Some(16)
        case _ => None
      }
    case Vector(e, d) =>
      (match TypeSize(e)
       case Some(s) => Some(s * d)
       case None => None)
    case _ => None
  }

  /**
    Computing the size multiplies `usize` values, 64 bits wide. A product that does
    not fit is a panic where overflow is checked.
   */
  predicate SizeOverflows(t: ColumnType) {
    match t
    case Vector(e, d) => SizeOverflows(e) || (TypeSize(e).Some? && TypeSize(e).value * d >= TWO64)
    case _ => false
  }

  predicate SupportsEmpty(t: ColumnType) {
    match t
    case Native(n) => n != NativeType.Counter && n != NativeType.Duration
    case Collection(_, _) => false
    case UserDefinedType(_, _, _, _) => false
    case _ => true
  }

  /** Ascii, blob and text have no separate empty value. */
  predicate EmptyIsOrdinary(t: ColumnType) {
    t.Native? && (t.native.Ascii? || t.native.Blob? || t.native.Text?)
  }
}
