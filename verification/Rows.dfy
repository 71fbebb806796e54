/**
  Iteration over the rows of a result and over the columns of a row: the
  borrowing `RawRowIterator`, the owning `RawRowLendingIterator` and
  `ColumnIterator`. Models scylla-cql/src/deserialize/result.rs and
  scylla-cql/src/deserialize/row.rs.
 */
module Rows {
  import opened Wire
  import opened CqlTypes
  import opened FrameSlices

  datatype ColumnSpec = ColumnSpec(name: string, typ: ColumnType)

  /** `RawColumnDeserializationFailed`. */
  datatype ColumnError = ColumnError(index: nat, name: string, cause: LowLevelError)

  // ------------------------------------------------------------ specification

  /** The first column that cannot be read, and where reading the columns ended. */
  datatype Skip = Skip(failed: Option<ColumnError>, rest: bytes)

  /** Reads the columns from the `i`-th on. */
  function SkipRow(specs: seq<ColumnSpec>, i: nat, buf: bytes): (s: Skip)
    requires i <= |specs|
    ensures |s.rest| <= |buf|
    ensures s.failed.Some? ==>
              && i <= s.failed.value.index < |specs|
              && s.failed.value.name == specs[s.failed.value.index].name
              && ReadBytesOpt(s.rest) == Err(s.failed.value.cause)
    decreases |specs| - i
  {
    if i == |specs| then Skip(None, buf)
    else
      match ReadBytesOpt(buf)
      case Err(e) => Skip(Some(ColumnError(i, specs[i].name, e)), buf)
      case Ok(cell) => SkipRow(specs, i + 1, cell.rest)
  }

  /** The slice after `k` rows. */
  function After(specs: seq<ColumnSpec>, k: nat, buf: bytes): (rest: bytes)
    ensures |rest| <= |buf|
  {
    if k == 0 then buf else After(specs, k - 1, SkipRow(specs, 0, buf).rest)
  }

  /** What a row iterator yields at `buf`: the row that starts there, or an error. */
  function RowAt(specs: seq<ColumnSpec>, buf: bytes): (r: Result<bytes, ColumnError>) {
    match SkipRow(specs, 0, buf).failed
    case None => Ok(buf)
    case Some(e) => Err(e)
  }

  /** What the column iterator of a row yields. */
  function Columns(specs: seq<ColumnSpec>, i: nat, buf: bytes)
    : (r: seq<Result<Option<bytes>, ColumnError>>)
    requires i <= |specs|
    ensures |r| == |specs| - i
    decreases |specs| - i
  {
    if i == |specs| then []
    else
      match ReadBytesOpt(buf)
      case Err(e) => [Err(ColumnError(i, specs[i].name, e))] + Columns(specs, i + 1, buf)
      case Ok(cell) => [Ok(cell.value)] + Columns(specs, i + 1, cell.rest)
  }

  // ---------------------------------------------------------------- iterators

  datatype RawColumn = RawColumn(index: nat, spec: ColumnSpec, slice: Option<FrameSlice>)

  class ColumnIterator {
    const specs: seq<ColumnSpec>
    var index: nat
    const slice: FrameSlice

    ghost predicate Valid()
      reads this, slice
    {
      index <= |specs| && slice.Valid()
    }

    constructor (specs: seq<ColumnSpec>, slice: FrameSlice)
      requires slice.Valid()
      ensures Valid() && this.specs == specs && index == 0 && this.slice == slice
    {
      this.specs, this.slice := specs, slice;
      index := 0;
    }

    method Next() returns (r: Option<Result<RawColumn, ColumnError>>)
      requires Valid()
      modifies this, slice
      ensures Valid() && slice.end == old(slice.end)
      ensures old(index) == |specs| ==> r.None? && index == old(index) && slice.start == old(slice.start)
      ensures old(index) < |specs| ==> index == old(index) + 1 && r.Some?
      ensures r.Some? ==>
                var spec, read := specs[old(index)], ReadBytesOpt(old(slice.AsSlice()));
                if read.Err? then
                  && r.value == Err(ColumnError(old(index), spec.name, read.error))
                  && slice.start == old(slice.start)
                else
                  && r.value.Ok? && slice.AsSlice() == read.value.rest
                  && r.value.value.index == old(index) && r.value.value.spec == spec
                  && (r.value.value.slice.Some? <==> read.value.value.Some?)
      ensures r.Some? && r.value.Ok? && r.value.value.slice.Some? ==>
                && slice.IsPart(r.value.value.slice.value, old(slice.start) + 4, slice.start)
                && Some(r.value.value.slice.value.AsSlice()) == ReadBytesOpt(old(slice.AsSlice())).value.value
    {
      if index == |specs| {
        return None;
      }
      var at := index;
      index := index + 1;
      var read := slice.ReadCqlBytes();
      if read.Err? {
        return Some(Err(ColumnError(at, specs[at].name, read.error)));
      }
      r := Some(Ok(RawColumn(at, specs[at], read.value)));
    }
  }

  class RawRowIterator {
    const specs: seq<ColumnSpec>
    var remaining: nat
    const slice: FrameSlice

    ghost predicate Valid()
      reads this, slice
    {
      slice.Valid()
    }

    constructor (remaining: nat, specs: seq<ColumnSpec>, slice: FrameSlice)
      requires slice.Valid()
      ensures Valid() && this.specs == specs && this.remaining == remaining && this.slice == slice
    {
      this.specs, this.slice := specs, slice;
      this.remaining := remaining;
    }

    method Next() returns (r: Option<Result<ColumnIterator, ColumnError>>)
      requires Valid()
      modifies this, slice
      ensures Valid() && slice.end == old(slice.end)
      ensures old(remaining) == 0 ==> r.None? && remaining == 0 && slice.start == old(slice.start)
      ensures old(remaining) > 0 ==>
                && r.Some? && remaining == old(remaining) - 1
                && slice.AsSlice() == SkipRow(specs, 0, old(slice.AsSlice())).rest
                && (r.value.Ok? <==> RowAt(specs, old(slice.AsSlice())).Ok?)
                && (r.value.Err? ==> r.value.error == RowAt(specs, old(slice.AsSlice())).error)
      ensures r.Some? && r.value.Ok? ==>
                var row := r.value.value;
                && fresh(row) && fresh(row.slice) && row.Valid() && row.specs == specs && row.index == 0
                && slice.IsPart(row.slice, old(slice.start), old(slice.end))
    {
      hide ReadBytesOpt;
      if remaining == 0 {
        return None;
      }
      remaining := remaining - 1;
      var copy := new FrameSlice.Part(slice, slice.start, slice.end);
      var iter := new ColumnIterator(specs, copy);
      for i := 0 to |specs|
        invariant slice.Valid() && slice.end == old(slice.end) && remaining == old(remaining) - 1
        invariant SkipRow(specs, i, slice.AsSlice()) == SkipRow(specs, 0, old(slice.AsSlice()))
        invariant fresh(copy) && slice.IsPart(copy, old(slice.start), old(slice.end)) && iter.index == 0
      {
        var read := slice.ReadCqlBytes();
        if read.Err? {
          return Some(Err(ColumnError(i, specs[i].name, read.error)));
        }
      }
      r := Some(Ok(iter));
    }
  }

  class RawRowLendingIterator {
    const specs: seq<ColumnSpec>
    var remaining: nat
    var at: nat
    const rawRows: bytes

    ghost predicate Valid()
      reads this
    {
      at <= |rawRows|
    }

    constructor (remaining: nat, specs: seq<ColumnSpec>, rawRows: bytes)
      ensures Valid() && this.specs == specs && this.remaining == remaining
      ensures this.rawRows == rawRows && at == 0
    {
      this.specs, this.rawRows := specs, rawRows;
      this.remaining, at := remaining, 0;
    }

    method Next() returns (r: Option<Result<ColumnIterator, ColumnError>>)
      requires Valid()
      modifies this
      ensures Valid()
      ensures old(remaining) == 0 ==> r.None? && remaining == 0 && at == old(at)
      ensures old(remaining) > 0 ==>
                && r.Some? && remaining == old(remaining) - 1
                && rawRows[at..] == SkipRow(specs, 0, rawRows[old(at)..]).rest
                && (r.value.Ok? <==> RowAt(specs, rawRows[old(at)..]).Ok?)
                && (r.value.Err? ==> r.value.error == RowAt(specs, rawRows[old(at)..]).error)
      ensures r.Some? && r.value.Ok? ==>
                var row := r.value.value;
                && fresh(row) && fresh(row.slice) && row.Valid() && row.specs == specs && row.index == 0
                && row.slice.memory == row.slice.original == rawRows
                && row.slice.start == old(at) && row.slice.end == |rawRows|
    {
      hide ReadBytesOpt, SkipRow;
      if remaining == 0 {
        return None;
      }
      remaining := remaining - 1;
      var frame := new FrameSlice(rawRows);
      var rest := new FrameSlice.Part(frame, at, |rawRows|);
      var copy := new FrameSlice.Part(rest, at, |rawRows|);
      var iter := new ColumnIterator(specs, copy);
      for i := 0 to |specs|
        invariant at == rest.start <= rest.end == |rawRows| && remaining == old(remaining) - 1
        invariant rest.Valid() && rest.memory == rawRows && fresh(rest) && rest != copy
        invariant SkipRow(specs, i, rawRows[at..]) == SkipRow(specs, 0, rawRows[old(at)..])
        invariant rest.IsPart(copy, old(at), |rawRows|) && iter.index == 0
      {
        assert rest.AsSlice() == rawRows[at..];
        SkipStep(specs, i, rawRows[at..]);
        var before := rest.end - rest.start;
        var read := rest.ReadCqlBytes();
        if read.Err? {
          return Some(Err(ColumnError(i, specs[i].name, read.error)));
        }
        at := at + (before - (rest.end - rest.start));
        assert rest.AsSlice() == rawRows[at..];
      }
      SkipEnds(specs, rawRows[at..]);
      r := Some(Ok(iter));
    }
  }

  // ------------------------------------------------------------------ lockstep

  /** The two row iterators stand at the same place of the same result. */
  ghost predicate InStep(raw: RawRowIterator, lending: RawRowLendingIterator)
    reads raw, raw.slice, lending
  {
    && raw.Valid() && lending.Valid()
    && raw.specs == lending.specs && raw.remaining == lending.remaining
    && raw.slice.memory == lending.rawRows && raw.slice.end == |lending.rawRows|
    && raw.slice.start == lending.at
  }

  lemma SkipStep(specs: seq<ColumnSpec>, i: nat, buf: bytes)
    requires i < |specs|
    ensures SkipRow(specs, i, buf)
            == match ReadBytesOpt(buf)
               case Err(e) => Skip(Some(ColumnError(i, specs[i].name, e)), buf)
               case Ok(cell) => SkipRow(specs, i + 1, cell.rest)
  {
    hide ReadBytesOpt;
  }

  lemma SkipEnds(specs: seq<ColumnSpec>, buf: bytes)
    ensures SkipRow(specs, |specs|, buf) == Skip(None, buf)
  {
  }

  /** A row by the window it was given: the frame and the range of it. */
  datatype RowWindow = RowWindow(frame: bytes, start: nat, end: nat)

  type RowView = Option<Result<RowWindow, ColumnError>>

  function ViewOf(r: Option<Result<ColumnIterator, ColumnError>>): (v: RowView)
    reads if r.Some? && r.value.Ok? then {r.value.value, r.value.value.slice} else {}
  {
    if r.None? then None
    else if r.value.Err? then Some(Err(r.value.error))
    else
      var slice := r.value.value.slice;
      Some(Ok(RowWindow(slice.memory, slice.start, slice.end)))
  }

  /** The `k`-th item of an iterator over `remaining` rows in `buf`, the end of `frame`. */
  function ItemAt(specs: seq<ColumnSpec>, remaining: nat, buf: bytes, frame: bytes, k: nat): (v: RowView)
    requires |buf| <= |frame|
  {
    if k >= remaining then None
    else
      var rest := After(specs, k, buf);
      match RowAt(specs, rest)
      case Ok(_) => Some(Ok(RowWindow(frame, |frame| - |rest|, |frame|)))
      case Err(e) => Some(Err(e))
  }

  lemma {:induction false} AfterStep(specs: seq<ColumnSpec>, k: nat, buf: bytes)
    ensures After(specs, k + 1, buf) == SkipRow(specs, 0, After(specs, k, buf)).rest
  {
    if k > 0 {
      AfterStep(specs, k - 1, SkipRow(specs, 0, buf).rest);
    }
  }

  lemma ItemShift(specs: seq<ColumnSpec>, remaining: nat, buf: bytes, frame: bytes, k: nat)
    requires |buf| <= |frame|
    ensures k <= remaining ==>
              ItemAt(specs, remaining, buf, frame, k) == ItemAt(specs, remaining - k, After(specs, k, buf), frame, 0)
    ensures k > remaining ==> ItemAt(specs, remaining, buf, frame, k) == None
  {
    hide SkipRow;
  }

  lemma SameStart(frame: bytes, a: nat, b: nat)
    requires a <= |frame| && b <= |frame| && frame[a..] == frame[b..]
    ensures a == b
  {
    assert |frame[a..]| == |frame[b..]|;
  }

  /** One step of both iterators, by the window they share. */
  method StepBoth(raw: RawRowIterator, lending: RawRowLendingIterator) returns (x: RowView, y: RowView)
    requires InStep(raw, lending)
    modifies raw, raw.slice, lending
    ensures InStep(raw, lending) && raw.slice.end == old(raw.slice.end)
    ensures x == y == ItemAt(raw.specs, old(raw.remaining), old(raw.slice.AsSlice()), lending.rawRows, 0)
    ensures old(raw.remaining) == 0 ==> raw.remaining == 0 && x.None?
    ensures old(raw.remaining) > 0 ==>
              && raw.remaining == old(raw.remaining) - 1
              && raw.slice.AsSlice() == SkipRow(raw.specs, 0, old(raw.slice.AsSlice())).rest
  {
    hide SkipRow;
    assert raw.slice.AsSlice() == lending.rawRows[lending.at..];
    var a := raw.Next();
    var b := lending.Next();
    assert raw.slice.AsSlice() == lending.rawRows[raw.slice.start..];
    if old(raw.remaining) > 0 {
      SameStart(lending.rawRows, raw.slice.start, lending.at);
    }
    x, y := ViewOf(a), ViewOf(b);
  }

  /** Over any run the iterators yield the same items and stay in step. */
  method RunBoth(raw: RawRowIterator, lending: RawRowLendingIterator, steps: nat)
    returns (a: seq<RowView>, b: seq<RowView>)
    requires InStep(raw, lending)
    modifies raw, raw.slice, lending
    ensures InStep(raw, lending)
    ensures a == b && |a| == steps
    ensures forall k :: 0 <= k < steps ==>
              a[k] == ItemAt(raw.specs, old(raw.remaining), old(raw.slice.AsSlice()), lending.rawRows, k)
  {
    hide SkipRow, ItemAt;
    a, b := [], [];
    ghost var specs, buf, frame := raw.specs, raw.slice.AsSlice(), lending.rawRows;
    ghost var count := raw.remaining;
    for k := 0 to steps
      invariant InStep(raw, lending)
      invariant raw.remaining == if k < count then count - k else 0
      invariant k <= count ==> raw.slice.AsSlice() == After(specs, k, buf)
      invariant a == b && |a| == k
      invariant forall i :: 0 <= i < k ==> a[i] == ItemAt(specs, count, buf, frame, i)
    {
      AfterStep(specs, k, buf);
      ItemShift(specs, count, buf, frame, k);
      var x, y := StepBoth(raw, lending);
      a, b := a + [x], b + [y];
    }
  }
}
