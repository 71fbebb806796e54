/**
  What a whole run of a row iterator yields, for any bytes: complete rows that
  tile the result, then one and the same failure until the rows are used up.
 */
module RowRuns {
  import opened Wire
  import opened CqlTypes
  import opened Cells
  import opened ValueCodec
  import opened FrameSlices
  import opened DecodeSteps
  import opened ValueIterators
  import opened Rows

  // ------------------------------------------------------------ after an error

  /** The failure that the first bad column of `e` leads to from then on. */
  function Repeated(specs: seq<ColumnSpec>, e: ColumnError): (e': ColumnError)
    requires specs != []
  {
    ColumnError(0, specs[0].name, e.cause)
  }

  /** Where a column cannot be read no row is read, and the slice does not move. */
  lemma {:induction false} StuckAt(specs: seq<ColumnSpec>, k: nat, buf: bytes, cause: LowLevelError)
    requires specs != [] && ReadBytesOpt(buf) == Err(cause)
    ensures After(specs, k, buf) == buf
    ensures RowAt(specs, buf) == Err(ColumnError(0, specs[0].name, cause))
  {
    if k > 0 {
      StuckAt(specs, k - 1, buf, cause);
    }
  }

  /** How many rows come before the first failure. */
  function GoodRows(specs: seq<ColumnSpec>, remaining: nat, buf: bytes): (m: nat)
    ensures m <= remaining
  {
    if remaining == 0 || RowAt(specs, buf).Err? then 0
    else 1 + GoodRows(specs, remaining - 1, SkipRow(specs, 0, buf).rest)
  }

  /** Rows, then the first bad column, then column 0 with the same cause and the slice at rest. */
  lemma {:induction false} RunShape(specs: seq<ColumnSpec>, remaining: nat, buf: bytes, k: nat)
    requires k < remaining
    ensures var m := GoodRows(specs, remaining, buf);
            var item := RowAt(specs, After(specs, k, buf));
            && (k < m ==> item == Ok(After(specs, k, buf)))
            && (k == m ==> item.Err?)
            && (k > m ==>
                  var first := RowAt(specs, After(specs, m, buf));
                  && first.Err? && specs != [] && item == Err(Repeated(specs, first.error))
                  && After(specs, k, buf) == After(specs, m + 1, buf))
  {
    hide SkipRow, ReadBytesOpt;
    var rest := SkipRow(specs, 0, buf).rest;
    if RowAt(specs, buf).Err? {
      if k > 0 {
        StuckAt(specs, k - 1, rest, RowAt(specs, buf).error.cause);
        assert After(specs, 1, buf) == After(specs, 0, rest);
      }
    } else if k > 0 {
      RunShape(specs, remaining - 1, rest, k - 1);
    }
  }

  /** The first error itself is repeated exactly when nothing could be read off the slice at all. */
  lemma SameErrorExactlyWhen(specs: seq<ColumnSpec>, buf: bytes)
    requires RowAt(specs, buf).Err?
    ensures RowAt(specs, After(specs, 1, buf)) == RowAt(specs, buf) <==> ReadBytesOpt(buf).Err?
  {
    var e := RowAt(specs, buf).error;
    StuckAt(specs, 0, SkipRow(specs, 0, buf).rest, e.cause);
    assert After(specs, 1, buf) == After(specs, 0, SkipRow(specs, 0, buf).rest);
  }

  /** A null and a torn cell for two columns: first column 1 is named, then column 0. */
  lemma ErrorChanges(a: ColumnSpec, b: ColumnSpec)
    ensures var specs, buf := [a, b], WriteBytesOpt(None).value + [0];
            && RowAt(specs, buf) == Err(ColumnError(1, b.name, IoError))
            && RowAt(specs, After(specs, 1, buf)) == Err(ColumnError(0, a.name, IoError))
  {
    var specs, buf := [a, b], WriteBytesOpt(None).value + [0];
    BytesOptRoundTrip(None, [0]);
    assert SkipRow(specs, 1, [0]) == Skip(Some(ColumnError(1, b.name, IoError)), [0]);
    assert After(specs, 1, buf) == After(specs, 0, [0]);
  }

  // ------------------------------------------------------ columns of a row

  lemma {:induction false} ColumnAt(specs: seq<ColumnSpec>, i: nat, buf: bytes, j: nat)
    requires i + j < |specs|
    ensures var failed, column := SkipRow(specs, i, buf).failed, Columns(specs, i, buf)[j];
            && (failed.None? || i + j < failed.value.index ==> column.Ok?)
            && (failed.Some? && i + j == failed.value.index ==> column == Err(failed.value))
    decreases j
  {
    hide ReadBytesOpt;
    if ReadBytesOpt(buf).Ok? && j > 0 {
      ColumnAt(specs, i + 1, ReadBytesOpt(buf).value.rest, j - 1);
    }
  }

  /** A row is handed out exactly if all its columns read, otherwise the first bad one is named. */
  lemma ColumnsOfRow(specs: seq<ColumnSpec>, buf: bytes)
    ensures var row, columns := RowAt(specs, buf), Columns(specs, 0, buf);
            if row.Ok? then forall j :: 0 <= j < |specs| ==> columns[j].Ok?
            else
              && columns[row.error.index] == Err(row.error)
              && forall j :: 0 <= j < row.error.index ==> columns[j].Ok?
  {
    hide SkipRow, Columns;
    forall j | 0 <= j < |specs|
      ensures var failed, column := SkipRow(specs, 0, buf).failed, Columns(specs, 0, buf)[j];
              && (failed.None? || j < failed.value.index ==> column.Ok?)
              && (failed.Some? && j == failed.value.index ==> column == Err(failed.value))
    {
      ColumnAt(specs, 0, buf, j);
    }
  }

  lemma ColumnsStep(specs: seq<ColumnSpec>, i: nat, buf: bytes)
    requires i < |specs|
    ensures Columns(specs, i, buf)
            == match ReadBytesOpt(buf)
               case Err(e) => [Err(ColumnError(i, specs[i].name, e))] + Columns(specs, i + 1, buf)
               case Ok(cell) => [Ok(cell.value)] + Columns(specs, i + 1, cell.rest)
  {
  }

  lemma OneMoreColumn<T>(done: seq<T>, item: T, rest: seq<T>)
    ensures done + ([item] + rest) == done + [item] + rest
  {
  }

  /** Draining a column iterator. */
  method CollectColumns(row: ColumnIterator) returns (r: seq<Result<Option<bytes>, ColumnError>>)
    requires row.Valid()
    modifies row, row.slice
    ensures r == old(Columns(row.specs, row.index, row.slice.AsSlice()))
  {
    hide ReadBytesOpt, Columns;
    r := [];
    ghost var all := Columns(row.specs, row.index, row.slice.AsSlice());
    assert [] + all == all;
    while true
      invariant row.Valid()
      invariant r + Columns(row.specs, row.index, row.slice.AsSlice())
             == old(Columns(row.specs, row.index, row.slice.AsSlice()))
      decreases |row.specs| - row.index
    {
      ghost var left := Columns(row.specs, row.index, row.slice.AsSlice());
      if row.index < |row.specs| {
        ColumnsStep(row.specs, row.index, row.slice.AsSlice());
      }
      var column := row.Next();
      if column.None? {
        return;
      }
      var item := if column.value.Err? then Err(column.value.error) else Ok(Contents(column.value.value.slice));
      ghost var rest := Columns(row.specs, row.index, row.slice.AsSlice());
      assert left == [item] + rest;
      OneMoreColumn(r, item, rest);
      r := r + [item];
    }
  }

  /** The bytes a row takes up. */
  function Span(specs: seq<ColumnSpec>, buf: bytes): (bs: bytes) {
    buf[..|buf| - |SkipRow(specs, 0, buf).rest|]
  }

  lemma {:induction false} SkipRange(specs: seq<ColumnSpec>, i: nat, buf: bytes)
    requires i <= |specs|
    ensures var rest := SkipRow(specs, i, buf).rest; rest == buf[|buf| - |rest|..]
    decreases |specs| - i
  {
    hide ReadBytesOpt;
    if i < |specs| && ReadBytesOpt(buf).Ok? {
      var next := ReadBytesOpt(buf).value.rest;
      BytesOptRange(buf);
      SkipRange(specs, i + 1, next);
      var rest := SkipRow(specs, i, buf).rest;
      RangeOfRange(buf, |buf| - |next|, |buf|, |buf| - |rest|, |buf|);
    }
  }

  function Spans(specs: seq<ColumnSpec>, remaining: nat, buf: bytes): (r: seq<bytes>)
    ensures |r| == remaining
  {
    if remaining == 0 then []
    else [Span(specs, buf)] + Spans(specs, remaining - 1, SkipRow(specs, 0, buf).rest)
  }

  /** The rows tile the result: laid end to end, with the unread rest, they are the bytes given. */
  lemma {:induction false} RowsTile(specs: seq<ColumnSpec>, remaining: nat, buf: bytes)
    ensures Concat(Spans(specs, remaining, buf)) + After(specs, remaining, buf) == buf
  {
    hide SkipRow;
    if remaining > 0 {
      var rest := SkipRow(specs, 0, buf).rest;
      SkipRange(specs, 0, buf);
      RowsTile(specs, remaining - 1, rest);
      var tail := Spans(specs, remaining - 1, rest);
      assert Concat([Span(specs, buf)] + tail) == Span(specs, buf) + Concat(tail) by {
        assert ([Span(specs, buf)] + tail)[1..] == tail;
      }
      assert buf == Span(specs, buf) + rest;
    }
  }

  // --------------------------------------------------------- rows of cells

  predicate FitRow(row: seq<Option<bytes>>) {
    forall i :: 0 <= i < |row| ==> FitsCell(row[i])
  }

  /** A result as the server writes it: the cells of its rows one after the other. */
  function JoinRows(rows: seq<seq<Option<bytes>>>): (buf: bytes)
    requires forall i :: 0 <= i < |rows| ==> FitRow(rows[i])
  {
    if rows == [] then []
    else
      assert FitRow(rows[0]);
      JoinCells(rows[0]) + JoinRows(rows[1..])
  }

  lemma {:induction false} CellsOfRow(specs: seq<ColumnSpec>, i: nat, row: seq<Option<bytes>>, rest: bytes)
    requires i + |row| == |specs| && FitRow(row)
    ensures SkipRow(specs, i, JoinCells(row) + rest) == Skip(None, rest)
    ensures forall j :: 0 <= j < |row| ==> Columns(specs, i, JoinCells(row) + rest)[j] == Ok(row[j])
    decreases |row|
  {
    hide ReadBytesOpt, WriteBytesOpt;
    var buf := JoinCells(row) + rest;
    if row == [] {
      assert buf == rest;
    } else {
      assert FitsCell(row[0]);
      var tail := JoinCells(row[1..]) + rest;
      assert buf == WriteBytesOpt(row[0]).value + tail;
      BytesOptRoundTrip(row[0], tail);
      CellsOfRow(specs, i + 1, row[1..], rest);
    }
  }

  /** Such a result is read back row by row and column by column, and nothing is left. */
  lemma {:induction false} RowsReadBack(specs: seq<ColumnSpec>, rows: seq<seq<Option<bytes>>>, k: nat)
    requires forall i :: 0 <= i < |rows| ==> |rows[i]| == |specs| && FitRow(rows[i])
    requires k <= |rows|
    ensures After(specs, k, JoinRows(rows)) == JoinRows(rows[k..])
    ensures k < |rows| ==>
              && RowAt(specs, JoinRows(rows[k..])).Ok?
              && forall j :: 0 <= j < |specs| ==> Columns(specs, 0, JoinRows(rows[k..]))[j] == Ok(rows[k][j])
  {
    hide SkipRow, Columns, JoinCells;
    if k < |rows| {
      assert rows[k..][0] == rows[k] && FitRow(rows[k]) && rows[k..][1..] == rows[k + 1..];
      CellsOfRow(specs, 0, rows[k], JoinRows(rows[k + 1..]));
    }
    if k == 0 {
      assert rows[0..] == rows;
    } else {
      assert FitRow(rows[0]);
      CellsOfRow(specs, 0, rows[0], JoinRows(rows[1..]));
      RowsReadBack(specs, rows[1..], k - 1);
      assert rows[1..][k - 1..] == rows[k..];
    }
  }

  // ------------------------------------------------------------ dynamic rows

  function TypesOf(specs: seq<ColumnSpec>): (ts: seq<ColumnType>)
    ensures |ts| == |specs| && forall i :: 0 <= i < |specs| ==> ts[i] == specs[i].typ
  {
    seq(|specs|, i requires 0 <= i < |specs| => specs[i].typ)
  }

  /** `Row::deserialize`: a row of columns decodes as a tuple of their types would. */
  method DeserializeRow(row: ColumnIterator) returns (r: Outcome<seq<Option<CqlValue>>>)
    requires row.Valid()
    modifies row, row.slice
    ensures r == old(DeserializeTuple(TypesOf(row.specs)[row.index..], row.slice.AsSlice()))
  {
    hide ReadBytesOpt, DecodeNullable, DeserializeTuple;
    var columns := [];
    ghost var ts := TypesOf(row.specs);
    OntoEnds(columns, DeserializeTuple(ts[row.index..], row.slice.AsSlice()));
    while true
      invariant row.Valid()
      invariant Onto(columns, DeserializeTuple(ts[row.index..], row.slice.AsSlice()))
             == old(DeserializeTuple(TypesOf(row.specs)[row.index..], row.slice.AsSlice()))
      decreases |row.specs| - row.index
    {
      if row.index < |ts| {
        ElemsStep(ts[row.index..], row.slice.AsSlice());
        assert ts[row.index..][1..] == ts[row.index + 1..];
      }
      OntoEnds(columns, Done(columns));
      NoFields(row.slice.AsSlice());
      var column := row.Next();
      if column.None? {
        return Done(columns);
      } else if column.value.Err? {
        return Failed;
      }
      var v := DeserializeNullable(column.value.value.spec.typ, column.value.value.slice);
      if !v.Done? {
        return v.PropagateFailure();
      }
      OntoChain(columns, v.value, DeserializeTuple(ts[row.index..], row.slice.AsSlice()));
      columns := columns + [v.value];
    }
  }
}
