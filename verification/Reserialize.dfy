/**
  What the dynamic decoder returns, the serializer accepts back: for any bytes, it
  refuses a decoded value only for its size, or for an empty value where the type
  has none.
 */
module Reserialize {
  import opened Wire
  import opened Vint
  import opened CqlTypes
  import opened Cells
  import opened ValueCodec
  import opened RoundTrip

  /** No empty value stands where the type has none. */
  predicate EmptiesSupported(v: CqlValue, t: ColumnType)
    decreases t, 1
  {
    match v
    case Empty => SupportsEmpty(t)
    case List(l) => t.Collection? && !t.typ.Map? ==> EmptiesInAll(l, t.typ.elem)
    case Set(l) => t.Collection? && !t.typ.Map? ==> EmptiesInAll(l, t.typ.elem)
    case Vector(l) => t.Vector? ==> EmptiesInAll(l, t.elem)
    case Map(m) => t.Collection? && t.typ.Map? ==> EmptiesInEntries(m, t.typ)
    case UserDefinedType(_, _, values) => t.UserDefinedType? ==> EmptiesInFields(values, t.fields)
    case Tuple(vs) => t.Tuple? ==> EmptiesInElems(vs, t.elems)
    case _ => true
  }

  predicate EmptiesInAll(l: seq<CqlValue>, e: ColumnType)
    decreases e, 2
  {
    forall i :: 0 <= i < |l| ==> EmptiesSupported(l[i], e)
  }

  predicate EmptiesInEntries(m: seq<Entry>, c: CollectionType)
    requires c.Map?
    decreases c, 2
  {
    forall i :: 0 <= i < |m| ==> EmptiesSupported(m[i].key, c.key) && EmptiesSupported(m[i].value, c.value)
  }

  predicate EmptiesInFields(values: seq<NamedValue>, fs: seq<Field>)
    decreases fs, 0
  {
    |values| == |fs| ==>
      forall i :: 0 <= i < |fs| && values[i].value.Some? ==> EmptiesSupported(values[i].value.value, fs[i].typ)
  }

  predicate EmptiesInElems(vs: seq<Option<CqlValue>>, ts: seq<ColumnType>)
    decreases ts, 0
  {
    |vs| == |ts| ==> forall i :: 0 <= i < |ts| && vs[i].Some? ==> EmptiesSupported(vs[i].value, ts[i])
  }

  /** No user-defined type in the type has two fields of the same name. */
  predicate DistinctFields(t: ColumnType) {
    match t
    case Native(_) => true
    case Collection(_, c) =>
      if c.Map? then DistinctFields(c.key) && DistinctFields(c.value) else DistinctFields(c.elem)
    case Vector(e, _) => DistinctFields(e)
    case UserDefinedType(_, _, _, fs) =>
      && (forall i, j :: 0 <= i < j < |fs| ==> fs[i].name != fs[j].name)
      && forall i :: 0 <= i < |fs| ==> DistinctFields(fs[i].typ)
    case Tuple(ts) => forall i :: 0 <= i < |ts| ==> DistinctFields(ts[i])
  }

  /** A result that is fine but for a size if `supported`, and fine only if `supported`. */
  predicate Agrees<T>(supported: bool, r: Result<T, SerError>) {
    (supported ==> r.Ok? || r.error == SizeOverflow) && (r.Ok? ==> supported)
  }

  // ------------------------------------------------------------------ the parts

  predicate IsScalar(v: CqlValue) {
    && !v.Empty? && !v.List? && !v.Set? && !v.Vector? && !v.Map? && !v.Tuple? && !v.UserDefinedType?
  }

  lemma NativeIsScalar(n: NativeType, buf: bytes)
    requires DeserializeNative(n, buf).Done?
    ensures IsScalar(DeserializeNative(n, buf).value)
  {
    hide FromBE, FromSignedBE, Pow256, VintDecode;
  }

  lemma NativeSerializes(n: NativeType, buf: bytes)
    requires DeserializeNative(n, buf).Done?
    ensures Agrees(true, SerializeNative(DeserializeNative(n, buf).value, n))
  {
    hide FromBE, FromSignedBE, ToBE, ToSignedBE, Pow256, VintDecode, VintEncode;
  }

  lemma ScalarIsNative(v: CqlValue, n: NativeType)
    requires IsScalar(v)
    ensures Serialize(v, Native(n)) == SerializeNative(v, n) && EmptiesSupported(v, Native(n))
  {
    hide SerializeNative;
  }

  lemma NativeAccepted(n: NativeType, buf: bytes)
    requires DeserializeNative(n, buf).Done?
    ensures var v := DeserializeNative(n, buf).value;
            EmptiesSupported(v, Native(n)) && Agrees(true, Serialize(v, Native(n)))
  {
    hide DeserializeNative, SerializeNative, Serialize;
    NativeIsScalar(n, buf);
    NativeSerializes(n, buf);
    ScalarIsNative(DeserializeNative(n, buf).value, n);
  }

  lemma EmptiesCons(l: seq<CqlValue>, e: ColumnType)
    requires l != []
    ensures EmptiesInAll(l, e) <==> EmptiesSupported(l[0], e) && EmptiesInAll(l[1..], e)
  {
    hide EmptiesSupported;
    assert forall i :: 0 < i < |l| ==> l[i] == l[1..][i - 1];
  }

  lemma {:induction false} AllAccepted(e: ColumnType, items: seq<Option<bytes>>)
    requires DistinctFields(e) && DecodeAll(e, items).Done?
    ensures var l := DecodeAll(e, items).value; Agrees(EmptiesInAll(l, e), SerializeAll(l, e))
    decreases e, 2, |items|
  {
    hide Deserialize, Serialize, EmptiesSupported, DistinctFields;
    if items != [] {
      var l := DecodeAll(e, items).value;
      assert l[0] == DecodeValue(e, items[0]).value && l[1..] == DecodeAll(e, items[1..]).value;
      EmptiesCons(l, e);
      DecodedIsAccepted(e, items[0].value);
      AllAccepted(e, items[1..]);
    }
  }

  lemma EmptiesConsEntry(m: seq<Entry>, c: CollectionType)
    requires c.Map? && m != []
    ensures EmptiesInEntries(m, c)
            <==> && EmptiesSupported(m[0].key, c.key) && EmptiesSupported(m[0].value, c.value)
                 && EmptiesInEntries(m[1..], c)
  {
    hide EmptiesSupported;
    assert forall i :: 0 < i < |m| ==> m[i] == m[1..][i - 1];
  }

  lemma {:induction false} EntriesAccepted(c: CollectionType, items: seq<Option<bytes>>)
    requires c.Map? && DistinctFields(c.key) && DistinctFields(c.value) && DecodeEntries(c, items).Done?
    ensures var m := DecodeEntries(c, items).value; Agrees(EmptiesInEntries(m, c), SerializeEntries(m, c))
    decreases c, 2, |items|
  {
    hide Deserialize, Serialize, EmptiesSupported, DistinctFields;
    if |items| >= 2 {
      var m := DecodeEntries(c, items).value;
      assert m[1..] == DecodeEntries(c, items[2..]).value;
      assert m[0] == Entry(DecodeValue(c.key, items[0]).value, DecodeValue(c.value, items[1]).value);
      EmptiesConsEntry(m, c);
      DecodedIsAccepted(c.key, items[0].value);
      DecodedIsAccepted(c.value, items[1].value);
      EntriesAccepted(c, items[2..]);
    }
  }

  predicate EmptyNullable(v: Option<CqlValue>, t: ColumnType) {
    v.Some? ==> EmptiesSupported(v.value, t)
  }

  lemma NullableAccepted(t: ColumnType, item: Option<bytes>)
    requires DistinctFields(t) && DecodeNullable(t, item).Done?
    ensures var v := DecodeNullable(t, item).value; Agrees(EmptyNullable(v, t), SerializeNullable(v, t))
    decreases t, 2
  {
    hide Deserialize, Serialize, EmptiesSupported, DistinctFields;
    if item.Some? {
      DecodedIsAccepted(t, item.value);
    }
  }

  lemma EmptiesConsElem(vs: seq<Option<CqlValue>>, ts: seq<ColumnType>)
    requires |vs| == |ts| > 0
    ensures EmptiesInElems(vs, ts) <==> EmptyNullable(vs[0], ts[0]) && EmptiesInElems(vs[1..], ts[1..])
  {
    hide EmptiesSupported;
    assert forall i :: 0 < i < |vs| ==> vs[i] == vs[1..][i - 1] && ts[i] == ts[1..][i - 1];
  }

  lemma {:induction false} ElemsAccepted(ts: seq<ColumnType>, items: seq<Option<bytes>>)
    requires |items| == |ts| && DecodeElems(ts, items).Done?
    requires forall i :: 0 <= i < |ts| ==> DistinctFields(ts[i])
    ensures var vs := DecodeElems(ts, items).value; Agrees(EmptiesInElems(vs, ts), SerializeElems(vs, ts))
    decreases ts, 0
  {
    hide Deserialize, Serialize, EmptiesSupported, DistinctFields;
    if items != [] {
      var vs := DecodeElems(ts, items).value;
      assert vs[0] == DecodeNullable(ts[0], items[0]).value && vs[1..] == DecodeElems(ts[1..], items[1..]).value;
      EmptiesConsElem(vs, ts);
      NullableAccepted(ts[0], items[0]);
      ElemsAccepted(ts[1..], items[1..]);
    }
  }

  function ValuesOnly(values: seq<NamedValue>): (vs: seq<Option<CqlValue>>)
    ensures |vs| == |values| && forall i :: 0 <= i < |vs| ==> vs[i] == values[i].value
  {
    seq(|values|, i requires 0 <= i < |values| => values[i].value)
  }

  lemma EmptiesConsField(values: seq<NamedValue>, fs: seq<Field>)
    requires |values| == |fs| > 0
    ensures EmptiesInFields(values, fs)
            <==> EmptyNullable(values[0].value, fs[0].typ) && EmptiesInFields(values[1..], fs[1..])
  {
    hide EmptiesSupported;
    assert forall i :: 0 < i < |fs| ==> values[i] == values[1..][i - 1] && fs[i] == fs[1..][i - 1];
  }

  lemma {:induction false} FieldsAccepted(fs: seq<Field>, items: seq<Option<bytes>>)
    requires |items| == |fs| && DecodeFields(fs, items).Done?
    requires forall i :: 0 <= i < |fs| ==> DistinctFields(fs[i].typ)
    ensures var values := DecodeFields(fs, items).value;
            Agrees(EmptiesInFields(values, fs), SerializeFields(ValuesOnly(values), fs))
    decreases fs, 0
  {
    hide Deserialize, Serialize, EmptiesSupported, DistinctFields;
    if items != [] {
      var values := DecodeFields(fs, items).value;
      assert values[1..] == DecodeFields(fs[1..], items[1..]).value;
      assert values[0].value == DecodeNullable(fs[0].typ, items[0]).value;
      EmptiesConsField(values, fs);
      assert ValuesOnly(values)[1..] == ValuesOnly(values[1..]);
      NullableAccepted(fs[0].typ, items[0]);
      FieldsAccepted(fs[1..], items[1..]);
    }
  }

  /** With distinct names the serializer picks up the decoded fields in place. */
  lemma PicksDecoded(values: seq<NamedValue>, fs: seq<Field>)
    requires SameNames(values, fs) && forall i, j :: 0 <= i < j < |fs| ==> fs[i].name != fs[j].name
    ensures PickFields(values, fs) == ValuesOnly(values)
    ensures forall i :: 0 <= i < |values| ==> HasField(fs, values[i].name)
  {
    forall i | 0 <= i < |values|
      ensures UniqueName(values, i)
      ensures HasField(fs, values[i].name)
    {
      assert fs[i].name == values[i].name;
      assert forall j :: 0 <= j < |fs| ==> values[j].name == fs[j].name;
    }
    PickInPlace(values, fs);
    forall i | 0 <= i < |fs|
      ensures PickFields(values, fs)[i] == values[i].value
    {
      assert Named(fs, PickFields(values, fs))[i] == values[i];
    }
  }

  // ---------------------------------------------------------------- the theorem

  lemma CollectionAccepted(c: CollectionType, buf: bytes)
    requires DistinctFields(Collection(false, c)) && DeserializeCollection(c, buf).Done?
    ensures var v, t := DeserializeCollection(c, buf).value, Collection(false, c);
            Agrees(EmptiesSupported(v, t), Serialize(v, t))
    decreases c, 3
  {
    hide ReadIntLength, RawCells, DecodeAll, DecodeEntries;
    var count := ReadIntLength(buf).value;
    if c.Map? {
      var items := RawCells(2 * count.value, count.rest).items;
      assert DeserializeMap(c, count.value, count.rest) == DecodeEntries(c, items);
      EntriesAccepted(c, items);
    } else {
      var items := RawCells(count.value, count.rest).items;
      assert DeserializeCells(c.elem, count.value, count.rest) == DecodeAll(c.elem, items);
      AllAccepted(c.elem, items);
    }
  }

  lemma VectorAccepted(e: ColumnType, d: u16, buf: bytes)
    requires DistinctFields(e) && !SizeOverflows(e) && DeserializeVector(e, d, buf).Done?
    ensures var l := DeserializeVector(e, d, buf).value;
            |l| == d && Agrees(EmptiesInAll(l, e), SerializeVec(l, ColumnType.Vector(e, d)))
    decreases e, 3
  {
    hide RawFixed, RawVariable, DecodeAll, TypeSize, DistinctFields, EmptiesSupported;
    var raw := RawVector(e, d, buf);
    assert DeserializeVector(e, d, buf) == DecodeAll(e, raw.items);
    AllAccepted(e, raw.items);
  }

  lemma UdtAccepted(t: ColumnType, buf: bytes)
    requires t.UserDefinedType? && DistinctFields(t) && DeserializeUdt(t.fields, buf).Done?
    ensures var values := DeserializeUdt(t.fields, buf).value;
            Agrees(EmptiesInFields(values, t.fields), SerializeUdt(t.keyspace, t.name, values, t))
    decreases t, 0
  {
    hide RawFields, DecodeFields, SerializeFields, PickFields, EmptiesSupported;
    var items := RawFields(|t.fields|, buf).items;
    var values := DecodeFields(t.fields, items).value;
    assert DeserializeUdt(t.fields, buf) == DecodeFields(t.fields, items);
    FieldsAccepted(t.fields, items);
    PicksDecoded(values, t.fields);
  }

  lemma TupleAccepted(ts: seq<ColumnType>, buf: bytes)
    requires (forall i :: 0 <= i < |ts| ==> DistinctFields(ts[i])) && DeserializeTuple(ts, buf).Done?
    ensures var vs := DeserializeTuple(ts, buf).value;
            Agrees(EmptiesInElems(vs, ts), SerializeTuple(vs, ColumnType.Tuple(ts)))
    decreases ts, 1
  {
    hide RawCells, DecodeElems, SerializeElems, DistinctFields, EmptiesSupported;
    var items := RawCells(|ts|, buf).items;
    assert DeserializeTuple(ts, buf) == DecodeElems(ts, items);
    ElemsAccepted(ts, items);
  }

  lemma Inner(t: ColumnType)
    requires DistinctFields(t)
    ensures t.Collection? ==> DistinctFields(Collection(false, t.typ))
    ensures t.Vector? ==> DistinctFields(t.elem)
    ensures t.Tuple? ==> forall i :: 0 <= i < |t.elems| ==> DistinctFields(t.elems[i])
  {
  }

  /** A decoded value is refused for its size, or for an empty value where the type has none. */
  lemma {:induction false} DecodedIsAccepted(t: ColumnType, buf: bytes)
    requires DistinctFields(t) && Deserialize(t, buf).Done?
    ensures var v := Deserialize(t, buf).value; Agrees(EmptiesSupported(v, t), Serialize(v, t))
    decreases t, 1
  {
    hide DeserializeNative, DeserializeCollection, DeserializeVector, DeserializeUdt, DeserializeTuple, SerializeNative,
      SerializeVec, SerializeUdt, SerializeTuple, DistinctFields;
    Inner(t);
    if buf != [] || EmptyIsOrdinary(t) {
      match t
      case Native(n) => NativeAccepted(n, buf);
      case Collection(_, c) => CollectionAccepted(c, buf);
      case Vector(e, d) =>
        VectorAccepted(e, d, buf);
        assert EmptiesSupported(Deserialize(t, buf).value, t) <==> EmptiesInAll(DeserializeVector(e, d, buf).value, e);
      case UserDefinedType(_, _, _, fs) =>
        UdtAccepted(t, buf);
        assert EmptiesSupported(Deserialize(t, buf).value, t) <==> EmptiesInFields(DeserializeUdt(fs, buf).value, fs);
      case Tuple(ts) =>
        TupleAccepted(ts, buf);
        assert EmptiesSupported(Deserialize(t, buf).value, t) <==> EmptiesInElems(DeserializeTuple(ts, buf).value, ts);
    }
  }

  /** An empty list decodes as the empty value, which the serializer refuses for a list. */
  lemma EmptyListRefused(e: ColumnType)
    ensures var t := Collection(false, CollectionType.List(e));
            Deserialize(t, []) == Done(Empty) && Serialize(Empty, t) == Err(TypeCheckFailed)
  {
  }
}
