/**
  The decoders of composite values one part at a time, in the order in which the
  iterators read and decode: each part is decoded before the next one is read.
 */
module DecodeSteps {
  import opened Wire
  import opened Vint
  import opened CqlTypes
  import opened Cells
  import opened ValueCodec

  /** The outcome of a decoder that had decoded `done` before. */
  function Onto<T>(done: seq<T>, rest: Outcome<seq<T>>): (r: Outcome<seq<T>>) {
    if rest.Done? then Done(done + rest.value) else rest
  }

  function Chain<T>(head: Outcome<T>, tail: Outcome<seq<T>>): (r: Outcome<seq<T>>) {
    if head.Done? then Onto([head.value], tail) else head.PropagateFailure()
  }

  lemma OntoEnds<T>(done: seq<T>, rest: Outcome<seq<T>>)
    ensures Onto([], rest) == rest
    ensures Onto(done, Done([])) == Done(done)
  {
    assert rest.Done? ==> [] + rest.value == rest.value;
    assert done + [] == done;
  }

  lemma OntoChain<T>(done: seq<T>, head: T, tail: Outcome<seq<T>>)
    ensures Onto(done, Chain(Done(head), tail)) == Onto(done + [head], tail)
  {
    if tail.Done? {
      assert done + ([head] + tail.value) == done + [head] + tail.value;
    }
  }

  /** Nothing to read is nothing to decode. */
  lemma NoElements(e: ColumnType, buf: bytes)
    ensures DeserializeCells(e, 0, buf) == Done([])
    ensures DeserializeVector(e, 0, buf) == Done([])
  {
    assert DecodeAll(e, []) == Done([]);
    assert RawVector(e, 0, buf) == NOTHING;
  }

  lemma NoEntries(c: CollectionType, buf: bytes)
    requires c.Map?
    ensures DeserializeMap(c, 0, buf) == Done([])
  {
    assert DecodeEntries(c, []) == Done([]);
  }

  lemma NoFields(buf: bytes)
    ensures DeserializeUdt([], buf) == Done([])
    ensures DeserializeTuple([], buf) == Done([])
  {
    assert DecodeFields([], []) == Done([]);
    assert DecodeElems([], []) == Done([]);
  }

  lemma RawCellsStep(n: nat, buf: bytes)
    requires n > 0
    ensures RawCells(n, buf)
            == match ReadBytesOpt(buf)
               case Err(_) => FAILURE
               case Ok(cell) => Prepend(cell.value, RawCells(n - 1, cell.rest))
  {
    hide ReadBytesOpt;
  }

  lemma CellsStep(e: ColumnType, n: nat, buf: bytes)
    requires n > 0
    ensures DeserializeCells(e, n, buf)
            == match ReadBytesOpt(buf)
               case Err(_) => Failed
               case Ok(cell) => Chain(DecodeValue(e, cell.value), DeserializeCells(e, n - 1, cell.rest))
  {
    hide ReadBytesOpt, Deserialize;
    var read := ReadBytesOpt(buf);
    if read.Ok? {
      assert RawCells(n, buf) == Prepend(read.value.value, RawCells(n - 1, read.value.rest));
      assert RawCells(n, buf).items[1..] == RawCells(n - 1, read.value.rest).items;
    }
  }

  /** A value is read before its key is decoded. */
  lemma EntriesStep(c: CollectionType, n: nat, buf: bytes)
    requires c.Map? && n > 0
    ensures DeserializeMap(c, n, buf)
            == match ReadBytesOpt(buf)
               case Err(_) => Failed
               case Ok(k) =>
                 match ReadBytesOpt(k.rest)
                 case Err(_) => Failed
                 case Ok(v) => Chain(DecodeEntry(c, k.value, v.value), DeserializeMap(c, n - 1, v.rest))
  {
    hide ReadBytesOpt, Deserialize;
    var read := ReadBytesOpt(buf);
    if read.Ok? {
      var raw := RawCells(2 * n, buf);
      assert raw == Prepend(read.value.value, RawCells(2 * n - 1, read.value.rest));
      var read' := ReadBytesOpt(read.value.rest);
      if read'.Ok? {
        var tail := RawCells(2 * (n - 1), read'.value.rest);
        assert RawCells(2 * n - 1, read.value.rest) == Prepend(read'.value.value, tail);
        assert raw.items[0] == read.value.value && raw.items[1] == read'.value.value;
        assert raw.items[2..] == tail.items;
      }
    }
  }

  function DecodeEntry(c: CollectionType, k: Option<bytes>, v: Option<bytes>): (r: Outcome<Entry>)
    requires c.Map?
  {
    var key :- DecodeValue(c.key, k);
    var value :- DecodeValue(c.value, v);
    Done(Entry(key, value))
  }

  /** One element of a vector, as its iterator reads it. */
  function ReadElement(size: Option<nat>, buf: bytes): (r: ReadResult<Option<bytes>>) {
    match size
    case Some(n) => ReadNBytes(n, buf)
    case None =>
      var n :- UnsignedVintDecode(buf);
      ReadNBytes(n.value, n.rest)
  }

  lemma VectorStep(e: ColumnType, n: nat, buf: bytes)
    requires n > 0
    ensures DeserializeVector(e, n, buf)
            == match ReadElement(TypeSize(e), buf)
               case Err(_) => Failed
               case Ok(item) => Chain(DecodeValue(e, item.value), DeserializeVector(e, n - 1, item.rest))
  {
    hide ReadNBytes, UnsignedVintDecode, Deserialize, TypeSize;
    var read := ReadElement(TypeSize(e), buf);
    if read.Ok? {
      assert RawVector(e, n, buf) == Prepend(read.value.value, RawVector(e, n - 1, read.value.rest));
      assert RawVector(e, n, buf).items[1..] == RawVector(e, n - 1, read.value.rest).items;
    }
  }

  /** One field of a user-defined type: missing when nothing is left. */
  function ReadField(buf: bytes): (r: ReadResult<Option<bytes>>) {
    if buf == [] then Ok(Read(None, buf)) else ReadBytesOpt(buf)
  }

  function DecodeField(f: Field, item: Option<bytes>): (r: Outcome<NamedValue>) {
    var v :- DecodeNullable(f.typ, item);
    Done(NamedValue(f.name, v))
  }

  lemma FieldsStep(fs: seq<Field>, buf: bytes)
    requires fs != []
    ensures DeserializeUdt(fs, buf)
            == match ReadField(buf)
               case Err(_) => Failed
               case Ok(item) => Chain(DecodeField(fs[0], item.value), DeserializeUdt(fs[1..], item.rest))
  {
    hide ReadBytesOpt, Deserialize;
    var read := ReadField(buf);
    if read.Ok? {
      assert RawFields(|fs|, buf) == Prepend(read.value.value, RawFields(|fs[1..]|, read.value.rest));
      assert RawFields(|fs|, buf).items[1..] == RawFields(|fs[1..]|, read.value.rest).items;
    }
  }

  lemma ElemsStep(ts: seq<ColumnType>, buf: bytes)
    requires ts != []
    ensures DeserializeTuple(ts, buf)
            == match ReadBytesOpt(buf)
               case Err(_) => Failed
               case Ok(cell) => Chain(DecodeNullable(ts[0], cell.value), DeserializeTuple(ts[1..], cell.rest))
  {
    hide ReadBytesOpt, DecodeNullable, RawCells;
    RawCellsStep(|ts|, buf);
    var read := ReadBytesOpt(buf);
    if read.Ok? {
      assert RawCells(|ts|, buf).items[1..] == RawCells(|ts[1..]|, read.value.rest).items;
    }
  }
}
