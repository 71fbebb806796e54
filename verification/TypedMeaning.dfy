/**
  What typed targets hold: the decoding of each cell into the target of its place, in
  order, for rows, lists, sets, maps and tuples. Models
  scylla-cql/src/deserialize/value.rs and the tuple rows of
  scylla-cql/src/deserialize/row.rs.
 */
module TypedMeaning {
  import opened Wire
  import opened CqlTypes
  import opened Cells
  import opened ValueCodec
  import opened DecodeSteps
  import opened Typed
  import opened Rows
  import opened RowRuns
  import opened VectorLayout

  // ------------------------------------------------------------------ one value

  /** A scalar whose type passed the check is the native decoding of the cell, and null is refused. */
  lemma ScalarMeaning(natives: set<NativeType>, t: ColumnType, bs: bytes)
    requires TypeCheck(Scalar(natives), t)
    ensures var typed, native := DecodeAs(Scalar(natives), t, Some(bs)), DeserializeNative(t.native, bs);
            && (typed.Done? <==> native.Done?) && (typed.Done? ==> typed.value == Value(native.value))
            && !typed.Panicked?
    ensures bs != [] ==>
              var typed, dynamic := DecodeAs(Scalar(natives), t, Some(bs)), Deserialize(t, bs);
              (typed.Done? <==> dynamic.Done?) && (typed.Done? ==> typed.value == Value(dynamic.value))
    ensures DecodeAs(Scalar(natives), t, None) == Failed
  {
    hide DeserializeNative;
  }

  /** An `Option` is null exactly for a null, and what its inner target makes of any other cell. */
  lemma NullableMeaning(y: Target, t: ColumnType, bs: bytes)
    ensures DecodeAs(Nullable(y), t, None) == Done(Null)
    ensures DecodeAs(Nullable(y), t, Some(bs)) == DecodeAs(y, t, Some(bs))
    ensures TypeCheck(Nullable(y), t) <==> TypeCheck(y, t)
  {
  }

  /** A `MaybeEmpty` is empty exactly for no bytes. */
  lemma MaybeEmptyMeaning(natives: set<NativeType>, t: ColumnType, bs: bytes)
    ensures DecodeAs(MaybeEmpty(natives), t, Some([])) == Done(EmptyValue)
    ensures bs != [] ==> DecodeAs(MaybeEmpty(natives), t, Some(bs)) == DecodeAs(Scalar(natives), t, Some(bs))
    ensures DecodeAs(MaybeEmpty(natives), t, None) == Failed
    ensures TypeCheck(MaybeEmpty(natives), t) <==> TypeCheck(Scalar(natives), t)
  {
    hide DeserializeNative;
  }

  /** Null is an empty list, set or map, and no vector or tuple. */
  lemma NullCollections(y: Target, k: Target, ys: seq<Target>, t: ColumnType)
    ensures TypeCheck(VecOf(y), t) ==> DecodeAs(VecOf(y), t, None) == if t.Vector? then Failed else Done(Several([]))
    ensures TypeCheck(SetOf(y), t) ==> DecodeAs(SetOf(y), t, None) == Done(Several([]))
    ensures TypeCheck(MapOf(k, y), t) ==> DecodeAs(MapOf(k, y), t, None) == Done(Pairs([]))
    ensures TypeCheck(TupleOf(ys), t) ==> DecodeAs(TupleOf(ys), t, None) == Failed
  {
  }

  /** Lists are taken from lists, sets and vectors, sets only from sets, and nothing from a frozen collection. */
  lemma CollectionsAccepted(e: ColumnType, k: ColumnType, d: u16)
    ensures TypeCheck(VecOf(Dynamic), Collection(false, CollectionType.List(e)))
    ensures TypeCheck(VecOf(Dynamic), Collection(false, CollectionType.Set(e)))
    ensures TypeCheck(VecOf(Dynamic), ColumnType.Vector(e, d))
    ensures TypeCheck(SetOf(Dynamic), Collection(false, CollectionType.Set(e)))
    ensures !TypeCheck(SetOf(Dynamic), Collection(false, CollectionType.List(e)))
    ensures !TypeCheck(SetOf(Dynamic), ColumnType.Vector(e, d))
    ensures TypeCheck(MapOf(Dynamic, Dynamic), Collection(false, CollectionType.Map(k, e)))
    ensures forall c :: !TypeCheck(VecOf(Dynamic), Collection(true, c))
                        && !TypeCheck(SetOf(Dynamic), Collection(true, c))
    ensures forall c :: !TypeCheck(MapOf(Dynamic, Dynamic), Collection(true, c))
  {
  }

  // ----------------------------------------------------------------- many values

  /** `l` holds what the targets make of the cells, one by one. */
  predicate HoldsItems(y: Target, e: ColumnType, items: seq<Option<bytes>>, l: seq<Decoded>) {
    |l| == |items| && forall i :: 0 <= i < |items| ==> DecodeAs(y, e, items[i]) == Done(l[i])
  }

  lemma {:induction false} ItemsMeaning(y: Target, e: ColumnType, items: seq<Option<bytes>>)
    ensures var r := DecodeItems(y, e, items);
            && (r.Done? <==> forall i :: 0 <= i < |items| ==> DecodeAs(y, e, items[i]).Done?)
            && (r.Done? ==> HoldsItems(y, e, items, r.value))
    decreases |items|
  {
    hide DecodeAs;
    if items != [] {
      ItemsMeaning(y, e, items[1..]);
      assert forall i :: 0 < i < |items| ==> items[i] == items[1..][i - 1];
    }
  }

  predicate HoldsEach(ys: seq<Target>, ts: seq<ColumnType>, items: seq<Option<bytes>>, l: seq<Decoded>) {
    |l| == |items| == |ys| == |ts| && forall i :: 0 <= i < |items| ==> DecodeAs(ys[i], ts[i], items[i]) == Done(l[i])
  }

  lemma {:induction false} EachMeaning(ys: seq<Target>, ts: seq<ColumnType>, items: seq<Option<bytes>>)
    requires |items| == |ys| == |ts|
    ensures var r := DecodeEach(ys, ts, items);
            && (r.Done? <==> forall i :: 0 <= i < |items| ==> DecodeAs(ys[i], ts[i], items[i]).Done?)
            && (r.Done? ==> HoldsEach(ys, ts, items, r.value))
    decreases |items|
  {
    hide DecodeAs;
    if items != [] {
      EachMeaning(ys[1..], ts[1..], items[1..]);
      assert forall i :: 0 < i < |items| ==>
        items[i] == items[1..][i - 1] && ys[i] == ys[1..][i - 1] && ts[i] == ts[1..][i - 1];
    }
  }

  predicate HoldsPairs(x: Target, c: CollectionType, items: seq<Option<bytes>>, ps: seq<DecodedPair>)
    requires x.MapOf? && c.Map?
  {
    && |items| == 2 * |ps|
    && forall i :: 0 <= i < |ps| ==>
         && DecodeAs(x.key, c.key, items[2 * i]) == Done(ps[i].key)
         && DecodeAs(x.value, c.value, items[2 * i + 1]) == Done(ps[i].value)
  }

  lemma {:induction false} PairsMeaning(x: Target, c: CollectionType, items: seq<Option<bytes>>)
    requires x.MapOf? && c.Map? && |items| % 2 == 0
    ensures var r := DecodePairs(x, c, items);
            && (r.Done? <==>
                  forall i :: 0 <= i < |items| ==>
                    if i % 2 == 0 then DecodeAs(x.key, c.key, items[i]).Done?
                    else DecodeAs(x.value, c.value, items[i]).Done?)
            && (r.Done? ==> HoldsPairs(x, c, items, r.value))
    decreases |items|
  {
    hide DecodeAs;
    if |items| >= 2 {
      PairsMeaning(x, c, items[2..]);
      assert forall i :: 2 <= i < |items| ==> items[i] == items[2..][i - 2] && i % 2 == (i - 2) % 2;
      var r := DecodePairs(x, c, items);
      if r.Done? {
        var tail := DecodePairs(x, c, items[2..]).value;
        PairsCons(x, c, items, r.value, tail);
      }
    }
  }

  lemma PairsCons(x: Target, c: CollectionType, items: seq<Option<bytes>>, ps: seq<DecodedPair>, tail: seq<DecodedPair>)
    requires x.MapOf? && c.Map? && |items| >= 2 && HoldsPairs(x, c, items[2..], tail) && |ps| > 0 && ps[1..] == tail
    requires DecodeAs(x.key, c.key, items[0]) == Done(ps[0].key)
    requires DecodeAs(x.value, c.value, items[1]) == Done(ps[0].value)
    ensures HoldsPairs(x, c, items, ps)
  {
    hide DecodeAs;
    forall i | 0 <= i < |ps|
      ensures DecodeAs(x.key, c.key, items[2 * i]) == Done(ps[i].key)
      ensures DecodeAs(x.value, c.value, items[2 * i + 1]) == Done(ps[i].value)
    {
      if i > 0 {
        assert ps[i] == tail[i - 1] && items[2 * i] == items[2..][2 * (i - 1)];
        assert items[2 * i + 1] == items[2..][2 * (i - 1) + 1];
      }
    }
  }

  // -------------------------------------------------------------- written values

  /** The bytes of a counted collection of these cells. */
  function CountedCells(n: nat, items: seq<Option<bytes>>): (buf: bytes)
    requires n <= I32_MAX && forall i :: 0 <= i < |items| ==> FitsCell(items[i])
  {
    WriteIntLength(n).value + JoinCells(items)
  }

  /** A list or set target holds what its element target makes of each cell, whatever cells were written. */
  lemma ListMeaning(x: Target, c: CollectionType, items: seq<Option<bytes>>)
    requires (x.VecOf? || x.SetOf?) && !c.Map? && |items| <= I32_MAX
    requires forall i :: 0 <= i < |items| ==> FitsCell(items[i])
    ensures var r := DecodeAs(x, Collection(false, c), Some(CountedCells(|items|, items)));
            && (r.Done? <==> forall i :: 0 <= i < |items| ==> DecodeAs(x.elem, c.elem, items[i]).Done?)
            && (r.Done? ==> r.value.Several? && HoldsItems(x.elem, c.elem, items, r.value.items))
  {
    hide DecodeItems, RawCells, JoinCells, ReadIntLength, HoldsItems;
    IntLengthRoundTrip(|items|, JoinCells(items));
    RawCellsInvertJoin(items);
    ItemsMeaning(x.elem, c.elem, items);
    ListAsItems(x, c, items);
  }

  lemma ListAsItems(x: Target, c: CollectionType, items: seq<Option<bytes>>)
    requires (x.VecOf? || x.SetOf?) && !c.Map? && |items| <= I32_MAX
    requires forall i :: 0 <= i < |items| ==> FitsCell(items[i])
    requires ReadIntLength(CountedCells(|items|, items)) == Ok(Read(|items|, JoinCells(items)))
    requires RawCells(|items|, JoinCells(items)) == Raw(items, true)
    ensures DecodeAs(x, Collection(false, c), Some(CountedCells(|items|, items)))
            == AsSeveral(DecodeItems(x.elem, c.elem, items))
  {
    hide DecodeItems, RawCells, JoinCells, ReadIntLength, CountedCells;
    var buf := CountedCells(|items|, items);
    assert DecodeAs(x, Collection(false, c), Some(buf)) == DecodeList(x.elem, Collection(false, c), Some(buf));
  }

  /** A map target holds its pairs in order. */
  lemma MapMeaning(x: Target, c: CollectionType, n: nat, items: seq<Option<bytes>>)
    requires x.MapOf? && c.Map? && |items| == 2 * n && n <= I32_MAX
    requires forall i :: 0 <= i < |items| ==> FitsCell(items[i])
    ensures var r := DecodeAs(x, Collection(false, c), Some(CountedCells(n, items)));
            && (r.Done? <==>
                  forall i :: 0 <= i < |items| ==>
                    if i % 2 == 0 then DecodeAs(x.key, c.key, items[i]).Done?
                    else DecodeAs(x.value, c.value, items[i]).Done?)
            && (r.Done? ==> r.value.Pairs? && HoldsPairs(x, c, items, r.value.pairs))
  {
    hide DecodePairs, RawCells, JoinCells, ReadIntLength, HoldsPairs;
    IntLengthRoundTrip(n, JoinCells(items));
    RawCellsInvertJoin(items);
    PairsMeaning(x, c, items);
    var buf := CountedCells(n, items);
    assert DecodeAs(x, Collection(false, c), Some(buf)) == DecodeMapAs(x, Collection(false, c), Some(buf));
  }

  /** A tuple target holds what the target of each place makes of the cell of that place. */
  lemma TupleMeaning(ys: seq<Target>, ts: seq<ColumnType>, items: seq<Option<bytes>>)
    requires |items| == |ys| == |ts| && forall i :: 0 <= i < |items| ==> FitsCell(items[i])
    ensures var r := DecodeAs(TupleOf(ys), ColumnType.Tuple(ts), Some(JoinCells(items)));
            && (r.Done? <==> forall i :: 0 <= i < |items| ==> DecodeAs(ys[i], ts[i], items[i]).Done?)
            && (r.Done? ==> r.value.Several? && HoldsEach(ys, ts, items, r.value.items))
  {
    hide DecodeEach, RawCells, JoinCells, HoldsEach;
    RawCellsInvertJoin(items);
    EachMeaning(ys, ts, items);
    var buf := JoinCells(items);
    assert DecodeAs(TupleOf(ys), ColumnType.Tuple(ts), Some(buf)) == AsSeveral(DecodeEach(ys, ts, items));
  }

  /** A list target takes a vector of fixed elements piece by piece. */
  lemma FixedVecMeaning(y: Target, n: NativeType, w: nat, d: u16, buf: bytes)
    requires FixedWidth(n, w) && w * d <= |buf|
    ensures var r := DecodeAs(VecOf(y), ColumnType.Vector(Native(n), d), Some(buf));
            && (r.Done? <==> forall i :: 0 <= i < d ==> DecodeAs(y, Native(n), Some(Slot(buf, w, i))).Done?)
            && (r.Done? ==>
                  && r.value.Several? && |r.value.items| == d
                  && forall i :: 0 <= i < d ==> DecodeAs(y, Native(n), Some(Slot(buf, w, i))) == Done(r.value.items[i]))
  {
    hide DecodeItems, RawFixed, Slot, TypeSize, SizeOverflows, FixedWidth;
    WidthIsSize(n, w);
    FixedSlots(w, d, buf);
    var raw := RawFixed(w, d, buf);
    ItemsMeaning(y, Native(n), raw.items);
    assert DecodeAs(VecOf(y), ColumnType.Vector(Native(n), d), Some(buf))
        == AsSeveral(Finish(DecodeItems(y, Native(n), raw.items), raw.complete));
  }

  // ------------------------------------------------------------------------ rows

  type Column = Result<Option<bytes>, ColumnError>

  /** The row is decoded exactly if every column reads and decodes, and then holds what each decodes to. */
  predicate RowIs(xs: seq<Target>, ts: seq<ColumnType>, columns: seq<Column>, r: Outcome<seq<Decoded>>) {
    && |xs| == |ts| == |columns|
    && (r.Done? <==>
          forall j :: 0 <= j < |xs| ==> columns[j].Ok? && DecodeAs(xs[j], ts[j], columns[j].value).Done?)
    && (r.Done? ==>
          && |r.value| == |xs|
          && forall j :: 0 <= j < |xs| ==>
                           columns[j].Ok? && DecodeAs(xs[j], ts[j], columns[j].value) == Done(r.value[j]))
  }

  lemma RowFails(xs: seq<Target>, ts: seq<ColumnType>, columns: seq<Column>)
    requires |xs| == |ts| == |columns| > 0 && columns[0].Err?
    ensures RowIs(xs, ts, columns, Failed)
  {
    hide DecodeAs;
  }

  lemma RowCons(xs: seq<Target>, ts: seq<ColumnType>, columns: seq<Column>, tail: Outcome<seq<Decoded>>)
    requires |xs| == |ts| == |columns| > 0 && columns[0].Ok? && RowIs(xs[1..], ts[1..], columns[1..], tail)
    ensures RowIs(xs, ts, columns, Chain(DecodeAs(xs[0], ts[0], columns[0].value), tail))
  {
    hide DecodeAs;
    assert forall j :: 0 < j < |xs| ==>
      xs[j] == xs[1..][j - 1] && ts[j] == ts[1..][j - 1] && columns[j] == columns[1..][j - 1];
  }

  function TypesOf(specs: seq<ColumnSpec>): (ts: seq<ColumnType>)
    ensures |ts| == |specs| && forall i :: 0 <= i < |specs| ==> ts[i] == specs[i].typ
  {
    seq(|specs|, i requires 0 <= i < |specs| => specs[i].typ)
  }

  /** Any bytes at all: a typed row holds what its targets make of the columns that the row has. */
  lemma RowOfColumns(xs: seq<Target>, specs: seq<ColumnSpec>, buf: bytes)
    requires |xs| == |specs|
    ensures RowIs(xs, TypesOf(specs), Columns(specs, 0, buf), DecodeRowAs(xs, TypesOf(specs), buf))
  {
    hide RowIs, Columns, DecodeRowAs;
    RowFrom(xs, specs, 0, buf);
    assert specs[0..] == specs;
  }

  lemma {:induction false} RowFrom(xs: seq<Target>, specs: seq<ColumnSpec>, i: nat, buf: bytes)
    requires i <= |specs| && |xs| == |specs| - i
    ensures RowIs(xs, TypesOf(specs[i..]), Columns(specs, i, buf), DecodeRowAs(xs, TypesOf(specs[i..]), buf))
    decreases |xs|
  {
    var ts, columns := TypesOf(specs[i..]), Columns(specs, i, buf);
    hide DecodeAs, ReadBytesOpt, Columns, RowIs;
    if xs == [] {
      NoColumns(ts, columns);
    } else {
      ColumnsStep(specs, i, buf);
      assert ts[1..] == TypesOf(specs[i + 1..]);
      if ReadBytesOpt(buf).Ok? {
        var rest := ReadBytesOpt(buf).value.rest;
        RowFrom(xs[1..], specs, i + 1, rest);
        assert columns[1..] == Columns(specs, i + 1, rest);
        RowCons(xs, ts, columns, DecodeRowAs(xs[1..], ts[1..], rest));
      } else {
        RowFails(xs, ts, columns);
      }
    }
  }

  lemma NoColumns(ts: seq<ColumnType>, columns: seq<Column>)
    requires ts == [] && columns == []
    ensures RowIs([], ts, columns, Done([]))
  {
  }

  function Present(row: seq<Option<bytes>>): (columns: seq<Column>)
    ensures |columns| == |row| && forall i :: 0 <= i < |row| ==> columns[i] == Ok(row[i])
  {
    seq(|row|, i requires 0 <= i < |row| => Ok(row[i]))
  }

  /** A written row: component by component what the targets make of the cells. */
  lemma {:induction false} RowMeaning(xs: seq<Target>, ts: seq<ColumnType>, row: seq<Option<bytes>>)
    requires |row| == |xs| == |ts| && forall i :: 0 <= i < |row| ==> FitsCell(row[i])
    ensures RowIs(xs, ts, Present(row), DecodeRowAs(xs, ts, JoinCells(row)))
    decreases |row|
  {
    hide DecodeAs, ReadBytesOpt, WriteBytesOpt, RowIs;
    if row == [] {
      NoColumns(ts, Present(row));
    } else {
      assert FitsCell(row[0]);
      BytesOptRoundTrip(row[0], JoinCells(row[1..]));
      RowMeaning(xs[1..], ts[1..], row[1..]);
      assert Present(row)[1..] == Present(row[1..]);
      RowCons(xs, ts, Present(row), DecodeRowAs(xs[1..], ts[1..], JoinCells(row[1..])));
    }
  }

  /** Two columns are decoded to both values, in order. */
  lemma TwoColumns(x: Target, y: Target, t: ColumnType, u: ColumnType, p: Option<bytes>, q: Option<bytes>)
    requires FitsCell(p) && FitsCell(q) && DecodeAs(x, t, p).Done? && DecodeAs(y, u, q).Done?
    ensures forall i :: 0 <= i < 2 ==> FitsCell([p, q][i])
    ensures DecodeRowAs([x, y], [t, u], JoinCells([p, q]))
            == Done([DecodeAs(x, t, p).value, DecodeAs(y, u, q).value])
  {
    hide DecodeAs, DecodeRowAs, JoinCells;
    var row := [p, q];
    RowMeaning([x, y], [t, u], row);
    var r := DecodeRowAs([x, y], [t, u], JoinCells(row));
    assert Present(row)[0].value == p && Present(row)[1].value == q;
    assert r.Done? && r.value == [r.value[0], r.value[1]];
  }
}
