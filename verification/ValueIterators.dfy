/**
  The iterators over the parts of a composite value and the dynamic decoder that
  drains them. Models scylla-cql/src/deserialize/value.rs and `deser_cql_value` of
  scylla-cql/src/value.rs, with `CqlValue` as the type of the elements. A panic is
  an outcome that ends the decoding.
 */
module ValueIterators {
  import opened Wire
  import opened CqlTypes
  import opened ValueCodec
  import opened FrameSlices
  import opened DecodeSteps

  /** The contents of an optional slice. */
  function Contents(v: Option<FrameSlice>): (bs: Option<bytes>)
    requires v.Some? ==> v.value.Valid()
    reads if v.Some? then {v.value} else {}
  {
    if v.Some? then Some(v.value.AsSlice()) else None
  }

  // ------------------------------------------------------------ raw iterators

  class FixedLengthBytesSequenceIterator {
    const slice: FrameSlice
    var remaining: nat

    ghost predicate Valid()
      reads this, slice
    {
      slice.Valid()
    }

    constructor (count: nat, slice: FrameSlice)
      requires slice.Valid()
      ensures Valid() && remaining == count && this.slice == slice
    {
      this.slice := slice;
      remaining := count;
    }

    method Next() returns (r: Option<Result<Option<FrameSlice>, LowLevelError>>)
      requires Valid()
      modifies this, slice
      ensures Valid()
      ensures r.None? <==> old(remaining) == 0
      ensures r.Some? ==>
                var read := ReadBytesOpt(old(slice.AsSlice()));
                && remaining == old(remaining) - 1
                && (read.Err? ==> r.value == Err(read.error))
                && (read.Ok? ==> r.value.Ok? && slice.AsSlice() == read.value.rest)
      ensures r.Some? && r.value.Ok? ==>
                && (r.value.value.Some? ==>
                      && slice.IsPart(r.value.value.value, old(slice.start) + 4, slice.start)
                      && fresh(r.value.value.value))
                && Contents(r.value.value) == ReadBytesOpt(old(slice.AsSlice())).value.value
    {
      if remaining == 0 {
        return None;
      }
      remaining := remaining - 1;
      var read := slice.ReadCqlBytes();
      r := Some(read);
    }
  }

  class BytesSequenceIterator {
    const slice: FrameSlice

    ghost predicate Valid()
      reads this, slice
    {
      slice.Valid()
    }

    constructor (slice: FrameSlice)
      requires slice.Valid()
      ensures Valid() && this.slice == slice
    {
      this.slice := slice;
    }

    method Next() returns (r: Option<Result<Option<FrameSlice>, LowLevelError>>)
      requires Valid()
      modifies slice
      ensures Valid()
      ensures r.None? <==> old(slice.AsSlice()) == []
      ensures r.None? ==> slice.AsSlice() == old(slice.AsSlice())
      ensures r.Some? ==>
                var read := ReadBytesOpt(old(slice.AsSlice()));
                && (read.Err? ==> r.value == Err(read.error))
                && (read.Ok? ==> r.value.Ok? && slice.AsSlice() == read.value.rest)
      ensures r.Some? && r.value.Ok? ==>
                && (r.value.value.Some? ==>
                      && slice.IsPart(r.value.value.value, old(slice.start) + 4, slice.start)
                      && fresh(r.value.value.value))
                && Contents(r.value.value) == ReadBytesOpt(old(slice.AsSlice())).value.value
    {
      if slice.AsSlice() == [] {
        return None;
      }
      var read := slice.ReadCqlBytes();
      r := Some(read);
    }
  }

  class UdtIterator {
    const fields: seq<Field>
    var at: nat
    const rawIter: BytesSequenceIterator

    ghost predicate Valid()
      reads this, rawIter, rawIter.slice
    {
      at <= |fields| && rawIter.Valid()
    }

    constructor (fields: seq<Field>, slice: FrameSlice)
      requires slice.Valid()
      ensures Valid() && this.fields == fields && at == 0
      ensures fresh(rawIter) && rawIter.slice == slice
    {
      this.fields, at := fields, 0;
      rawIter := new BytesSequenceIterator(slice);
    }

    /** The outer option tells a field missing from the value from a null one. */
    method Next() returns (r: Option<(Field, Result<Option<Option<FrameSlice>>, LowLevelError>)>)
      requires Valid()
      modifies this, rawIter.slice
      ensures Valid()
      ensures r.None? <==> old(at) == |fields|
      ensures r.Some? ==>
                var read := ReadField(old(rawIter.slice.AsSlice()));
                && at == old(at) + 1 && r.value.0 == fields[old(at)]
                && (r.value.1.Ok? <==> read.Ok?)
                && (read.Ok? ==> rawIter.slice.AsSlice() == read.value.rest)
      ensures r.Some? && r.value.1.Ok? ==>
                var item := r.value.1.value;
                && (item.None? <==> old(rawIter.slice.AsSlice()) == [])
                && (Flatten(item).Some? ==>
                      && rawIter.slice.IsPart(Flatten(item).value, old(rawIter.slice.start) + 4, rawIter.slice.start)
                      && fresh(Flatten(item).value))
                && Contents(Flatten(item)) == ReadField(old(rawIter.slice.AsSlice())).value.value
    {
      if at == |fields| {
        return None;
      }
      var head := fields[at];
      at := at + 1;
      var raw := rawIter.Next();
      if raw.None? {
        return Some((head, Ok(None)));
      } else if raw.value.Err? {
        return Some((head, Err(raw.value.error)));
      }
      r := Some((head, Ok(Some(raw.value.value))));
    }
  }

  function Flatten<T>(v: Option<Option<T>>): (r: Option<T>) {
    if v.Some? then v.value else None
  }

  // ------------------------------------------------------- decoding iterators

  class ListlikeIterator {
    const elemType: ColumnType
    const rawIter: FixedLengthBytesSequenceIterator

    ghost predicate Valid()
      reads this, rawIter, rawIter.slice
    {
      rawIter.Valid()
    }

    constructor (elemType: ColumnType, count: nat, slice: FrameSlice)
      requires slice.Valid()
      ensures Valid() && this.elemType == elemType
      ensures fresh(rawIter) && rawIter.remaining == count && rawIter.slice == slice
    {
      this.elemType := elemType;
      rawIter := new FixedLengthBytesSequenceIterator(count, slice);
    }

    /** What the elements left would decode to. */
    ghost function Left(): (r: Outcome<seq<CqlValue>>)
      requires Valid()
      reads this, rawIter, rawIter.slice
    {
      DeserializeCells(elemType, rawIter.remaining, rawIter.slice.AsSlice())
    }

    method Next() returns (r: Option<Outcome<CqlValue>>)
      requires Valid()
      modifies rawIter, rawIter.slice
      ensures Valid()
      ensures r.None? ==> old(Left()) == Done([])
      ensures r.Some? && r.value.Done? ==> old(Left()) == Chain(r.value, Left())
      ensures r.Some? && r.value.Done? ==> rawIter.remaining < old(rawIter.remaining)
      ensures r.Some? && !r.value.Done? ==> old(Left()) == r.value.PropagateFailure()
      decreases elemType, 3
    {
      hide ReadBytesOpt, Deserialize, DeserializeCells;
      if rawIter.remaining > 0 {
        CellsStep(elemType, rawIter.remaining, rawIter.slice.AsSlice());
      }
      NoElements(elemType, rawIter.slice.AsSlice());
      var raw := rawIter.Next();
      if raw.None? {
        return None;
      } else if raw.value.Err? {
        return Some(Failed);
      }
      var v := DeserializeElement(elemType, raw.value.value);
      r := Some(v);
    }
  }

  class MapIterator {
    const mapType: CollectionType
    const rawIter: FixedLengthBytesSequenceIterator

    ghost predicate Valid()
      reads this, rawIter, rawIter.slice
    {
      mapType.Map? && rawIter.Valid() && rawIter.remaining % 2 == 0
    }

    constructor (mapType: CollectionType, count: nat, slice: FrameSlice)
      requires mapType.Map? && slice.Valid()
      ensures Valid() && this.mapType == mapType
      ensures fresh(rawIter) && rawIter.remaining == 2 * count && rawIter.slice == slice
    {
      this.mapType := mapType;
      rawIter := new FixedLengthBytesSequenceIterator(2 * count, slice);
    }

    ghost function Left(): (r: Outcome<seq<Entry>>)
      requires Valid()
      reads this, rawIter, rawIter.slice
    {
      DeserializeMap(mapType, rawIter.remaining / 2, rawIter.slice.AsSlice())
    }

    method Next() returns (r: Option<Outcome<Entry>>)
      requires Valid()
      modifies rawIter, rawIter.slice
      ensures r.Some? && r.value.Done? ==> Valid()
      ensures r.None? ==> old(Left()) == Done([])
      ensures r.Some? && r.value.Done? ==> old(Left()) == Chain(r.value, Left())
      ensures r.Some? && r.value.Done? ==> rawIter.remaining < old(rawIter.remaining)
      ensures r.Some? && !r.value.Done? ==> old(Left()) == r.value.PropagateFailure()
      decreases mapType, 3
    {
      hide ReadBytesOpt, Deserialize, DeserializeMap;
      if rawIter.remaining > 0 {
        EntriesStep(mapType, rawIter.remaining / 2, rawIter.slice.AsSlice());
      }
      NoEntries(mapType, rawIter.slice.AsSlice());
      var rawKey := rawIter.Next();
      if rawKey.None? {
        return None;
      } else if rawKey.value.Err? {
        return Some(Failed);
      }
      var rawValue := rawIter.Next();
      if rawValue.None? {
        return None;
      } else if rawValue.value.Err? {
        return Some(Failed);
      }
      var key := DeserializeElement(mapType.key, rawKey.value.value);
      if !key.Done? {
        return Some(key.PropagateFailure());
      }
      var value := DeserializeElement(mapType.value, rawValue.value.value);
      if !value.Done? {
        return Some(value.PropagateFailure());
      }
      r := Some(Done(Entry(key.value, value.value)));
    }
  }

  class VectorIterator {
    const elemType: ColumnType
    var remaining: nat
    const slice: FrameSlice

    ghost predicate Valid()
      reads this, slice
    {
      slice.Valid()
    }

    constructor (elemType: ColumnType, count: nat, slice: FrameSlice)
      requires slice.Valid()
      ensures Valid() && this.elemType == elemType && remaining == count && this.slice == slice
    {
      this.elemType, this.slice := elemType, slice;
      remaining := count;
    }

    ghost function Left(): (r: Outcome<seq<CqlValue>>)
      requires Valid()
      reads this, slice
    {
      DeserializeVector(elemType, remaining, slice.AsSlice())
    }

    /** The raw element: of the fixed size, or of the size read before it. */
    method ReadRaw(size: Option<nat>) returns (r: Result<Option<FrameSlice>, LowLevelError>)
      requires Valid()
      modifies slice
      ensures Valid()
      ensures var read := ReadElement(size, old(slice.AsSlice()));
              (r.Ok? <==> read.Ok?) && (r.Ok? ==> slice.AsSlice() == read.value.rest)
      ensures r.Ok? ==>
                && (r.value.Some? ==>
                      && slice.IsPart(r.value.value, r.value.value.start, slice.start) && fresh(r.value.value)
                      && old(slice.start) <= r.value.value.start
                      && (size.Some? ==> r.value.value.start == old(slice.start)))
                && Contents(r.value) == ReadElement(size, old(slice.AsSlice())).value.value
    {
      var n := 0;
      if size.Some? {
        n := size.value;
      } else {
        var vint := slice.ReadVint();
        if vint.Err? {
          return Err(vint.error);
        }
        n := vint.value;
      }
      r := slice.ReadNBytes(n);
    }

    method Next() returns (r: Option<Outcome<CqlValue>>)
      requires Valid()
      modifies this, slice
      ensures Valid()
      ensures r.None? ==> old(Left()) == Done([])
      ensures r.Some? && r.value.Done? ==> old(Left()) == Chain(r.value, Left())
      ensures r.Some? && r.value.Done? ==> remaining < old(remaining)
      ensures r.Some? && !r.value.Done? ==> old(Left()) == r.value.PropagateFailure()
      decreases elemType, 3
    {
      hide ReadElement, Deserialize, TypeSize, DeserializeVector;
      NoElements(elemType, slice.AsSlice());
      if remaining == 0 {
        return None;
      }
      VectorStep(elemType, remaining, slice.AsSlice());
      remaining := remaining - 1;
      var raw := ReadRaw(TypeSize(elemType));
      if raw.Err? {
        return Some(Failed);
      }
      var v := DeserializeElement(elemType, raw.value);
      r := Some(v);
    }
  }

  // ---------------------------------------------------------------- collecting

  /** `collect::<Result<_, _>>()`: stops at the first failure. */
  method CollectList(it: ListlikeIterator) returns (r: Outcome<seq<CqlValue>>)
    requires it.Valid()
    modifies it.rawIter, it.rawIter.slice
    ensures r == old(it.Left())
    decreases it.elemType, 4
  {
    hide DeserializeCells;
    var values := [];
    OntoEnds(values, it.Left());
    while true
      invariant it.Valid() && Onto(values, it.Left()) == old(it.Left())
      decreases it.rawIter.remaining
    {
      OntoEnds(values, it.Left());
      var item := it.Next();
      if item.None? {
        return Done(values);
      } else if !item.value.Done? {
        return item.value.PropagateFailure();
      }
      OntoChain(values, item.value.value, it.Left());
      values := values + [item.value.value];
    }
  }

  method CollectMap(it: MapIterator) returns (r: Outcome<seq<Entry>>)
    requires it.Valid()
    modifies it.rawIter, it.rawIter.slice
    ensures r == old(it.Left())
    decreases it.mapType, 4
  {
    hide DeserializeMap;
    var entries := [];
    OntoEnds(entries, it.Left());
    while true
      invariant it.Valid() && Onto(entries, it.Left()) == old(it.Left())
      decreases it.rawIter.remaining
    {
      OntoEnds(entries, it.Left());
      var item := it.Next();
      if item.None? {
        return Done(entries);
      } else if !item.value.Done? {
        return item.value.PropagateFailure();
      }
      OntoChain(entries, item.value.value, it.Left());
      entries := entries + [item.value.value];
    }
  }

  method CollectVector(it: VectorIterator) returns (r: Outcome<seq<CqlValue>>)
    requires it.Valid()
    modifies it, it.slice
    ensures r == old(it.Left())
    decreases it.elemType, 4
  {
    hide DeserializeVector;
    var values := [];
    OntoEnds(values, it.Left());
    while true
      invariant it.Valid() && Onto(values, it.Left()) == old(it.Left())
      decreases it.remaining
    {
      OntoEnds(values, it.Left());
      var item := it.Next();
      if item.None? {
        return Done(values);
      } else if !item.value.Done? {
        return item.value.PropagateFailure();
      }
      OntoChain(values, item.value.value, it.Left());
      values := values + [item.value.value];
    }
  }

  /** The fields of a user-defined type, missing ones as nulls. */
  method CollectFields(it: UdtIterator) returns (r: Outcome<seq<NamedValue>>)
    requires it.Valid() && it.at == 0
    modifies it, it.rawIter.slice
    ensures r == old(DeserializeUdt(it.fields, it.rawIter.slice.AsSlice()))
    decreases it.fields, 4
  {
    hide ReadField, DecodeNullable, DeserializeUdt;
    var values := [];
    ghost var fs := it.fields;
    OntoEnds(values, DeserializeUdt(fs, it.rawIter.slice.AsSlice()));
    assert fs[0..] == fs;
    while true
      invariant it.Valid()
      invariant Onto(values, DeserializeUdt(fs[it.at..], it.rawIter.slice.AsSlice()))
             == old(DeserializeUdt(it.fields, it.rawIter.slice.AsSlice()))
      decreases |fs| - it.at
    {
      if it.at < |fs| {
        FieldsStep(fs[it.at..], it.rawIter.slice.AsSlice());
        assert fs[it.at..][1..] == fs[it.at + 1..];
      }
      OntoEnds(values, DeserializeUdt(fs, it.rawIter.slice.AsSlice()));
      NoFields(it.rawIter.slice.AsSlice());
      var item := it.Next();
      if item.None? {
        return Done(values);
      }
      var (field, raw) := item.value;
      if raw.Err? {
        return Failed;
      }
      var v := DeserializeNullable(field.typ, Flatten(raw.value));
      if !v.Done? {
        return v.PropagateFailure();
      }
      var value := NamedValue(field.name, v.value);
      OntoChain(values, value, DeserializeUdt(fs[it.at..], it.rawIter.slice.AsSlice()));
      values := values + [value];
    }
  }

  /** The elements of a tuple are read off the buffer one by one. */
  method CollectElems(types: seq<ColumnType>, buf: FrameSlice) returns (r: Outcome<seq<Option<CqlValue>>>)
    requires buf.Valid()
    modifies buf
    ensures r == old(DeserializeTuple(types, buf.AsSlice()))
    decreases types, 4
  {
    hide ReadBytesOpt, DecodeNullable, DeserializeTuple;
    var values := [];
    OntoEnds(values, DeserializeTuple(types, buf.AsSlice()));
    assert types[0..] == types;
    for i := 0 to |types|
      invariant buf.Valid()
      invariant Onto(values, DeserializeTuple(types[i..], buf.AsSlice()))
             == old(DeserializeTuple(types, buf.AsSlice()))
    {
      ElemsStep(types[i..], buf.AsSlice());
      assert types[i..][1..] == types[i + 1..];
      var raw := buf.ReadCqlBytes();
      if raw.Err? {
        return Failed;
      }
      var v := DeserializeNullable(types[i], raw.value);
      if !v.Done? {
        return v.PropagateFailure();
      }
      OntoChain(values, v.value, DeserializeTuple(types[i + 1..], buf.AsSlice()));
      values := values + [v.value];
    }
    OntoEnds(values, Done(values));
    NoFields(buf.AsSlice());
    r := Done(values);
  }

  // ---------------------------------------------------------------- the decoder

  /** `CqlValue::deserialize`. */
  method DeserializeElement(t: ColumnType, v: Option<FrameSlice>) returns (r: Outcome<CqlValue>)
    requires v.Some? ==> v.value.Valid()
    ensures r == DecodeValue(t, Contents(v))
    decreases t, 2
  {
    if v.None? {
      return Failed;
    }
    r := DeserCqlValue(t, v.value.AsSlice());
  }

  /** `Option::<CqlValue>::deserialize`. */
  method DeserializeNullable(t: ColumnType, v: Option<FrameSlice>) returns (r: Outcome<Option<CqlValue>>)
    requires v.Some? ==> v.value.Valid()
    ensures r == DecodeNullable(t, Contents(v))
    decreases t, 2
  {
    if v.None? {
      return Done(None);
    }
    var value := DeserCqlValue(t, v.value.AsSlice());
    if !value.Done? {
      return value.PropagateFailure();
    }
    r := Done(Some(value.value));
  }

  /** `ListlikeIterator`, `MapIterator` `::deserialize` and collecting them. */
  method DeserializeCounted(c: CollectionType, v: FrameSlice) returns (r: Outcome<CqlValue>)
    requires v.Valid()
    modifies v
    ensures r == old(DeserializeCollection(c, v.AsSlice()))
    decreases c, 5
  {
    var count := v.ReadLength();
    if count.Err? {
      return Failed;
    }
    if c.Map? {
      var it := new MapIterator(c, count.value, v);
      var m := CollectMap(it);
      return if m.Done? then Done(CqlValue.Map(m.value)) else m.PropagateFailure();
    }
    var it := new ListlikeIterator(c.elem, count.value, v);
    var l := CollectList(it);
    if !l.Done? {
      return l.PropagateFailure();
    }
    r := Done(if c.List? then CqlValue.List(l.value) else CqlValue.Set(l.value));
  }

  method DeserCqlValue(t: ColumnType, buf: bytes) returns (r: Outcome<CqlValue>)
    ensures r == Deserialize(t, buf)
    decreases t, 1
  {
    if buf == [] && !EmptyIsOrdinary(t) {
      return Done(Empty);
    }
    var v := new FrameSlice.Borrowed(buf);
    if t.Native? {
      r := DeserializeNative(t.native, buf);
    } else if t.Collection? {
      if t.frozen {
        return Panicked;
      }
      r := DeserializeCounted(t.typ, v);
    } else if t.Vector? {
      if SizeOverflows(t.elem) {
        return Panicked;
      }
      var it := new VectorIterator(t.elem, t.dimensions, v);
      var l := CollectVector(it);
      r := if l.Done? then Done(CqlValue.Vector(l.value)) else l.PropagateFailure();
    } else if t.UserDefinedType? {
      var it := new UdtIterator(t.fields, v);
      var fields := CollectFields(it);
      r := if fields.Done? then Done(CqlValue.UserDefinedType(t.keyspace, t.name, fields.value))
      else fields.PropagateFailure();
    } else {
      var vs := CollectElems(t.elems, v);
      r := if vs.Done? then Done(CqlValue.Tuple(vs.value)) else vs.PropagateFailure();
    }
  }
}
