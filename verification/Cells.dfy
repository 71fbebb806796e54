/**
  The framing of the parts of a composite value, before any part is decoded:
  `[bytes]` cells, fixed-length elements, vint-prefixed elements and the fields of
  a user-defined type. Models the raw side of the iterators of
  scylla-cql/src/deserialize/value.rs and the builders of
  scylla-cql/src/serialize/writers.rs.
 */
module Cells {
  import opened Wire
  import opened Vint

  /** The parts read before the first failing read; `complete` if none failed. */
  datatype Raw = Raw(items: seq<Option<bytes>>, complete: bool)

  const NOTHING := Raw([], true)
  const FAILURE := Raw([], false)

  function Prepend(item: Option<bytes>, rest: Raw): (r: Raw)
    ensures |r.items| == 1 + |rest.items|
  {
    Raw([item] + rest.items, rest.complete)
  }

  function AsItems(contents: seq<bytes>): (items: seq<Option<bytes>>)
    ensures |items| == |contents|
    ensures forall i :: 0 <= i < |contents| ==> items[i] == Some(contents[i])
  {
    seq(|contents|, i requires 0 <= i < |contents| => Some(contents[i]))
  }

  // -------------------------------------------------------------------- cells

  /** `FixedLengthBytesSequenceIterator`. */
  function RawCells(n: nat, buf: bytes): (r: Raw)
    ensures |r.items| <= n && (r.complete <==> |r.items| == n)
    ensures 4 * |r.items| <= |buf|
  {
    if n == 0 then NOTHING
    else
      match ReadBytesOpt(buf)
      case Err(_) => FAILURE
      case Ok(cell) => Prepend(cell.value, RawCells(n - 1, cell.rest))
  }

  /** `BytesSequenceIterator` behind `UdtIterator`: parts missing at the end are null. */
  function RawFields(n: nat, buf: bytes): (r: Raw)
    ensures |r.items| <= n && (r.complete <==> |r.items| == n)
  {
    if n == 0 then NOTHING
    else if buf == [] then Prepend(None, RawFields(n - 1, buf))
    else
      match ReadBytesOpt(buf)
      case Err(_) => FAILURE
      case Ok(cell) => Prepend(cell.value, RawFields(n - 1, cell.rest))
  }

  predicate FitsCell(item: Option<bytes>) {
    item.Some? ==> |item.value| <= I32_MAX
  }

  function JoinCells(items: seq<Option<bytes>>): (buf: bytes)
    requires forall i :: 0 <= i < |items| ==> FitsCell(items[i])
    ensures |buf| >= 4 * |items|
  {
    if items == [] then []
    else
      assert FitsCell(items[0]);
      WriteBytesOpt(items[0]).value + JoinCells(items[1..])
  }

  lemma {:induction false} RawCellsInvertJoin(items: seq<Option<bytes>>)
    requires forall i :: 0 <= i < |items| ==> FitsCell(items[i])
    ensures RawCells(|items|, JoinCells(items)) == Raw(items, true)
    ensures RawFields(|items|, JoinCells(items)) == Raw(items, true)
  {
    hide ReadBytesOpt, WriteBytesOpt;
    if items != [] {
      assert FitsCell(items[0]);
      BytesOptRoundTrip(items[0], JoinCells(items[1..]));
      RawCellsInvertJoin(items[1..]);
    }
  }

  function Nulls(n: nat): (items: seq<Option<bytes>>)
    ensures |items| == n && forall i :: 0 <= i < n ==> items[i].None?
  {
    seq(n, _ => None)
  }

  lemma {:induction false} NoFieldsLeft(n: nat)
    ensures RawFields(n, []) == Raw(Nulls(n), true)
  {
    if n > 0 {
      NoFieldsLeft(n - 1);
      assert Nulls(n) == [None] + Nulls(n - 1);
    }
  }

  /** Fields missing at the end read as nulls. */
  lemma {:induction false} MissingFields(n: nat, items: seq<Option<bytes>>)
    requires |items| <= n && forall i :: 0 <= i < |items| ==> FitsCell(items[i])
    ensures RawFields(n, JoinCells(items)) == Raw(items + Nulls(n - |items|), true)
    decreases n
  {
    hide ReadBytesOpt, WriteBytesOpt;
    if items == [] {
      NoFieldsLeft(n);
      assert [] + Nulls(n) == Nulls(n);
    } else {
      assert FitsCell(items[0]);
      BytesOptRoundTrip(items[0], JoinCells(items[1..]));
      MissingFields(n - 1, items[1..]);
      assert items + Nulls(n - |items|) == [items[0]] + (items[1..] + Nulls(n - |items|));
    }
  }

  // -------------------------------------------------- fixed-length elements

  /** `FrameSlice::read_n_bytes`: an empty slice yields no item, whatever the count. */
  function ReadNBytes(count: nat, buf: bytes): (r: ReadResult<Option<bytes>>)
    ensures r.Ok? && r.value.value.Some? ==>
              |r.value.value.value| == count && r.value.value.value + r.value.rest == buf
  {
    if buf == [] then Ok(Read(None, buf))
    else
      var raw :- ReadRawBytes(count, buf);
      Ok(Read(Some(raw.value), raw.rest))
  }

  function RawFixed(size: nat, n: nat, buf: bytes): (r: Raw)
    ensures |r.items| <= n && (r.complete <==> |r.items| == n)
  {
    if n == 0 then NOTHING
    else
      match ReadNBytes(size, buf)
      case Err(_) => FAILURE
      case Ok(item) => Prepend(item.value, RawFixed(size, n - 1, item.rest))
  }

  function Concat(contents: seq<bytes>): (buf: bytes) {
    if contents == [] then [] else contents[0] + Concat(contents[1..])
  }

  /** All parts are there only if the buffer has all their bytes, and some. */
  lemma {:induction false} RawFixedNeeds(size: nat, n: nat, buf: bytes)
    requires n > 0 && RawFixed(size, n, buf).complete
    requires forall i :: 0 <= i < n ==> RawFixed(size, n, buf).items[i].Some?
    ensures size * n <= |buf| && buf != []
  {
    var r := RawFixed(size, n, buf);
    var item := ReadNBytes(size, buf).value;
    assert r.items[0] == item.value;
    if n > 1 {
      assert RawFixed(size, n - 1, item.rest).items == r.items[1..];
      RawFixedNeeds(size, n - 1, item.rest);
    }
    assert size * n == size + size * (n - 1);
  }

  lemma {:induction false} ConcatBound(contents: seq<bytes>, size: nat)
    requires forall i :: 0 <= i < |contents| ==> |contents[i]| <= size
    ensures |Concat(contents)| <= size * |contents|
    ensures |Concat(contents)| == size * |contents|
            <==> forall i :: 0 <= i < |contents| ==> |contents[i]| == size
  {
    if contents != [] {
      ConcatBound(contents[1..], size);
      assert size * |contents| == size + size * |contents[1..]|;
      assert forall i :: 0 < i < |contents| ==> contents[i] == contents[1..][i - 1];
    }
  }

  lemma {:induction false} RawFixedInvertsConcat(contents: seq<bytes>, size: nat)
    requires size > 0 && forall i :: 0 <= i < |contents| ==> |contents[i]| == size
    ensures RawFixed(size, |contents|, Concat(contents)) == Raw(AsItems(contents), true)
  {
    if contents != [] {
      RawFixedInvertsConcat(contents[1..], size);
      var buf := Concat(contents);
      assert buf[..size] == contents[0] && buf[size..] == Concat(contents[1..]);
      assert AsItems(contents) == [Some(contents[0])] + AsItems(contents[1..]);
    }
  }

  /** Elements of at most `size` bytes are cut apart again iff they are all full. */
  lemma FixedFraming(contents: seq<bytes>, size: nat)
    requires contents != [] && forall i :: 0 <= i < |contents| ==> |contents[i]| <= size
    ensures var r := RawFixed(size, |contents|, Concat(contents));
            if size > 0 && forall i :: 0 <= i < |contents| ==> |contents[i]| == size
            then r == Raw(AsItems(contents), true)
            else !r.complete || exists i :: 0 <= i < |r.items| && r.items[i].None?
  {
    var r := RawFixed(size, |contents|, Concat(contents));
    ConcatBound(contents, size);
    if size > 0 && forall i :: 0 <= i < |contents| ==> |contents[i]| == size {
      RawFixedInvertsConcat(contents, size);
    } else if r.complete && forall i :: 0 <= i < |r.items| ==> r.items[i].Some? {
      RawFixedNeeds(size, |contents|, Concat(contents));
      assert false;
    }
  }

  // ----------------------------------------------- variable-length elements

  function RawVariable(n: nat, buf: bytes): (r: Raw)
    ensures |r.items| <= n && (r.complete <==> |r.items| == n)
  {
    if n == 0 then NOTHING
    else
      match UnsignedVintDecode(buf)
      case Err(_) => FAILURE
      case Ok(size) =>
        match ReadNBytes(size.value, size.rest)
        case Err(_) => FAILURE
        case Ok(item) => Prepend(item.value, RawVariable(n - 1, item.rest))
  }

  predicate FitsWord(contents: bytes) {
    |contents| < TWO64
  }

  function JoinVariable(contents: seq<bytes>): (buf: bytes)
    requires forall i :: 0 <= i < |contents| ==> FitsWord(contents[i])
    ensures contents != [] ==> buf != []
  {
    if contents == [] then []
    else
      assert FitsWord(contents[0]);
      EncodedLength(|contents[0]|);
      UnsignedVintEncode(|contents[0]|) + (contents[0] + JoinVariable(contents[1..]))
  }

  /** An empty last element is lost: nothing is left to read it from. */
  function CutLast(contents: seq<bytes>): (items: seq<Option<bytes>>)
    ensures |items| == |contents|
  {
    var items := AsItems(contents);
    var last := |contents| - 1;
    if contents != [] && contents[last] == [] then items[last := None] else items
  }

  lemma {:induction false} VariableFraming(contents: seq<bytes>)
    requires forall i :: 0 <= i < |contents| ==> FitsWord(contents[i])
    ensures RawVariable(|contents|, JoinVariable(contents)) == Raw(CutLast(contents), true)
  {
    hide UnsignedVintEncode, UnsignedVintDecode, ReadNBytes, CutLast;
    if contents == [] {
      assert CutLast(contents) == [];
    } else {
      assert FitsWord(contents[0]);
      var head, tail := contents[0], JoinVariable(contents[1..]);
      UnsignedVintRoundTrip(|head|, head + tail);
      VariableFraming(contents[1..]);
      VariableHead(head, tail);
      CutLastStep(contents, tail);
    }
  }

  lemma CutLastStep(contents: seq<bytes>, tail: bytes)
    requires contents != [] && (tail == [] <==> |contents| == 1)
    ensures CutLast(contents)
            == [if contents[0] + tail == [] then None else Some(contents[0])] + CutLast(contents[1..])
  {
  }

  lemma VariableHead(head: bytes, tail: bytes)
    ensures ReadNBytes(|head|, head + tail)
            == Ok(Read(if head + tail == [] then None else Some(head), tail))
  {
  }
}
