# A verified model of the CQL codec and of the proxy

This project models the two parts of the Scylla Rust driver that decide what
bytes mean and where frames go, and proves what they promise.

**The codec (`scylla-cql`).** `Wire` and `Vint` hold the in-wire primitives:
big-endian numbers, `[bytes]`, strings, the unsigned vint and the zig-zag vint.
`CqlTypes`, `Cells` and `ValueCodec` hold CQL types and values, the framing of
the parts of a composite value, and the dynamic serializer and decoder.
`RoundTrip` says when decoding returns what was serialized, `Reserialize` when
what was decoded can be serialized, `Canonical` which bytes that gives back
unchanged, `NoPanic` which types can make the decoder panic and with how many
bytes, `Typed` and `TypeChecks` the same for typed targets behind their type
checks. `FrameSlices`, `DecodeSteps`, `ValueIterators`, `Rows`
and `RowRuns` are the code in its own form: windows over a frame that move,
iterators that read them, the decoder that drains the iterators, and the two row
iterators. `Varint`, `Timeuuid` and `Times` are the algebra of three value
types. `Opcodes`, `Frames`, `FrameStreams` and `Extensions` are frames on the
wire, streams of them, and what precedes the body of a response. `WireFormat`,
`ValueFormat`, `VectorLayout` and `TypedMeaning` say what the codec does without
naming its own functions: which bytes primitives, frames, flags, values and vectors
are, what is refused, and what a typed row holds in terms of its columns.

**The proxy (`scylla-proxy`).** `Conditions` and `Rules` are the rules, whose
counters change when they are looked at. `Proxy` is the node as a step system:
receivers that parse bytes, processors, senders that write bytes, FIFO channels
between them, rules shared by all connections behind a lock that a panic poisons
and that may be replaced at any time, tasks that act later, an event flag and a
write-once compression cell. `ProxySafety` and `ProxyWire` are its inductive
invariants, `ProxyRuns` what follows for every run, `ProxyCrashes` what a panic
does to a node, `PassThrough` what a node without rules does, and `ProxyWorkers`
the workers in the code's own form. `ConditionMeaning` says what conditions say of a
frame, `ProxyDecisions` which frames meet which rule in every run, `ProxyStartup`
which STARTUP negotiates which compression, and `ProxyProgress` that what is pending
can be carried out and that a node without rules can always catch up. `PortSearch` is the search for a source port
of the same shard. `Arith` is division and greatest common divisors.

How the model stands to the code:

- Strings are their UTF-8 bytes, floats their bit patterns. A decoder returns
  `Done`, `Failed` (the kinds of errors are kept only where a property names
  them) or `Panicked` (an `unreachable!` arm, a failed `expect` or an overflow in
  computing the size of a vector's elements).
- Integers are unbounded; widths, truncating casts and truncating division are
  written out where the code has them. `usize` is 64 bits wide and its overflow in
  `type_size` is a panic, as where overflow is checked.
- The contents of a cell are serialized without the cell's own length; the limit
  of 2^31 - 1 bytes is checked where contents are put into a cell.
- The compression libraries, the calendar libraries, whether a port can be bound,
  random conditions and the processors of rules are parameters.
- Delays only say that an action happens later, so tasks act in any order.
  Atomic flags are sequentially consistent. Frames carry the number of their
  arrival so that copies can be counted. A receiver parses once the bytes decide
  whether there is a frame, a sender writes a frame in one step, and either may
  stay behind for ever, which stands for a socket that no longer moves. A frame
  counts as sent once it is on the channel; a sender stops at a frame that it
  cannot compress.
- Probabilities are real numbers, so NaN, which panics too, is not one of them.
- The queue of a processor that died stands for what is lost: its receiver ends at
  the next frame that it finds nobody to hand to.
- A failed vint read leaves a slice at a place the model does not fix.

Where the promised property is not what the code does, the exact condition is
proved:

- Decoding returns the serialized value exactly for values `Faithful` to their
  type. Excluded are: a `List` or `Set` serialized as the other or as a vector, an
  `Ascii` as `text` and the reverse, non-ASCII `Ascii`, the empty value of ascii,
  blob and text, an empty `varint`, times outside a day, vectors of no elements or
  with an empty last (or, of fixed size, any empty) element, tuples shorter than
  their type, and user-defined values with reordered, missing or repeated fields.
- A frozen collection makes the dynamic decoder panic, and the type check of
  `CqlValue` lets it through. So does a vector whose elements have a size of 2^64
  bytes or more, which server metadata can name. So a type check protects exactly
  the targets without a dynamic part in which no vector of elements of a fixed
  size can grow so large.
- `RawRowIterator` documents that after an error the same first error is returned
  again. The cause is the same, but the column named is 0 from then on. The error
  is the same exactly if nothing could be read in the first place.
- Bytes that decode need not be what the value is serialized as. They are exactly
  if they are `Canonical`: booleans of zero or one, vints in their shortest form,
  nulls written as the length -1, nothing missing at the end and nothing after it,
  and null fields wherever a name repeats.
- Not every frame that the proxy receives is forwarded or given to a rule. A
  condition about opcodes of the other direction, an empty pattern or a probability
  outside [0, 1] panics with the lock on the rules held. The frame and everything
  queued behind it is lost, and the poisoned lock stops that direction on every
  connection of the node for good. Rules without such conditions never do this.
- The shard is kept by the port search exactly when the number of wraparounds is a
  multiple of `shards / gcd(65536, shards)`.
- A rule that forges without a processor loses the copies of its task; every other
  reaction gets exactly the copies it asks for.
- Equal negative varints of different lengths compare as different.
- The empty value decoded for an empty collection, user-defined type, counter or
  duration is refused by the serializer.

## Model

| member | source | states |
|---|---|---|
| Wire.BytesOptRoundTrip | scylla-cql/src/frame/types.rs:281-338 | a written nullable `[bytes]` is read back and what follows is left |
| Wire.BytesRoundTrip | scylla-cql/src/frame/types.rs:294-323 | the same for `[bytes]` |
| Wire.StringRoundTrip | scylla-cql/src/frame/types.rs:386-398 | the same for strings |
| Wire.IntLengthRoundTrip | scylla-cql/src/frame/types.rs:200-216 | the same for an int length |
| Vint.UnsignedVintRoundTrip | scylla-cql/src/frame/types.rs:663-697 | every u64 in front of every suffix is decoded and the suffix is left |
| Vint.NumberOfBytesIsGroupsOfSeven | scylla-cql/src/frame/types.rs:663-668 | the length formula counts groups of seven bits, nine bytes at most |
| Vint.EncodedLength | scylla-cql/src/frame/types.rs:663-679 | which values take how many bytes |
| Vint.EncodeShape | scylla-cql/src/frame/types.rs:670-678 | the sign-extended length bits leave the prefix ones and the high bits in the first byte, the rest big-endian |
| Vint.HighPartBound | scylla-cql/src/frame/types.rs:683-695 | the shifted first byte leaves room for the bytes added to it, so the sum fits 64 bits |
| Vint.UnsignedVintMinimal | scylla-cql/src/frame/types.rs:663-697 | no code shorter than the encoder's decodes to a value |
| Vint.ShortestIsEncoded | scylla-cql/src/frame/types.rs:663-697 | a code is the encoder's iff it is as short |
| Vint.EncodeUnsignedVint | scylla-cql/src/frame/types.rs:663-679 | the encoder in place appends exactly the code |
| Vint.DecodeUnsignedVint | scylla-cql/src/frame/types.rs:681-697 | the decoder in place returns the value and moves past the code |
| Vint.ZigZagEncode | scylla-cql/src/frame/types.rs:655-657 | the shift-and-xor form is 2v, or -2v - 1 below zero |
| Vint.ZigZagDecode | scylla-cql/src/frame/types.rs:659-661 | and back |
| Vint.ZigZagBijection | scylla-cql/src/frame/types.rs:655-661 | zig-zag is a bijection of i64 and u64 |
| Vint.VintRoundTrip | scylla-cql/src/frame/types.rs:699-705 | decoding inverts encoding for every i64 and suffix |
| WireFormat.BytesOptMeaning | scylla-cql/src/frame/types.rs:281-293 | which bytes are a nullable `[bytes]`, with the length as four weighted bytes: every length with the sign bit is a null, and what cannot be read is an error |
| WireFormat.BytesOptWritten | scylla-cql/src/frame/types.rs:325-338 | the bytes that are written, null as four 0xff |
| WireFormat.IntLengthMeaning | scylla-cql/src/frame/types.rs:200-216 | an int length is four weighted bytes and is refused iff the sign bit is set |
| WireFormat.StringMeaning | scylla-cql/src/frame/types.rs:386-398 | a string is two bytes of length and well-formed UTF-8, and anything else an error |
| WireFormat.Utf8ExactlyWhen | scylla-cql/src/frame/types.rs:386-392 | bytes are taken as UTF-8 iff they encode some sequence of scalar values, code point by code point |
| WireFormat.NineByteVint | scylla-cql/src/frame/types.rs:681-697 | 0xff and any eight bytes are a vint of those eight bytes |
| WireFormat.OneString | scylla-cql/src/frame/types.rs:472-479 | the bytes of a list of one string |
| WireFormat.OnePayload | scylla-cql/src/frame/types.rs:346-357 | the bytes of a map of one payload: two bytes for the count and the key's length, four for the payload's |
| WireFormat.RepeatedKey | scylla-cql/src/frame/types.rs:346-357 | of two entries of a map with the same key the later one is kept |
| Cells.RawCellsInvertJoin | scylla-cql/src/deserialize/value.rs:1663-1724 | cells written one after the other are read back by both raw iterators |
| Cells.MissingFields | scylla-cql/src/deserialize/value.rs:1496-1521 | fields missing at the end read as nulls |
| Cells.FixedFraming | scylla-cql/src/deserialize/value.rs:1033-1052 | elements of a fixed size are cut apart again iff all are full and the size is not zero |
| Cells.VariableFraming | scylla-cql/src/deserialize/value.rs:1054-1090 | vint-prefixed elements are cut apart again, except that an empty last one is lost |
| ValueFormat.EmptyCell | scylla-cql/src/value.rs:1335-1349 | no bytes are an empty ascii, blob or text, and the empty value of every other type |
| ValueFormat.EmptyWritten | scylla-cql/src/frame/response/result.rs:340-350 | the empty value is refused for counters, durations, collections and user-defined types, and for nothing else |
| ValueFormat.BooleanMeaning | scylla-cql/src/deserialize/value.rs:206-215 | zero is false and every other byte true |
| ValueFormat.ScalarWidths | scylla-cql/src/deserialize/value.rs:186-300 | how many bytes each scalar type takes, and that text is UTF-8 and ascii below 128 |
| ValueFormat.ShortNumbers | scylla-cql/src/deserialize/value.rs:216-217 | a tinyint and a smallint are one and two bytes as a signed number |
| ValueFormat.FourByteNumbers | scylla-cql/src/deserialize/value.rs:218-220 | four bytes are weighted to an int, signed, a date or the bits of a float, and are an IPv4 address as they are |
| ValueFormat.EightByteNumbers | scylla-cql/src/deserialize/value.rs:219-245 | eight bytes are weighted to a bigint, counter or timestamp, signed, or the bits of a double |
| ValueFormat.SixteenBytes | scylla-cql/src/deserialize/value.rs:619-660 | sixteen bytes are a uuid, a timeuuid or an IPv6 address as they are |
| ValueFormat.ScalarAcceptedExactlyWhen | scylla-cql/src/serialize/value.rs:578-654 | a scalar is accepted for a native type iff it is of that type, or both are strings, and it fits |
| ValueFormat.CompositeRefuses | scylla-cql/src/serialize/value.rs:578-654 | no scalar is accepted for a composite type, and nothing for a frozen collection |
| ValueFormat.CountsRefused | scylla-cql/src/serialize/value.rs:625-639 | a vector of another number of elements and a tuple of more than its type has are refused |
| ValueFormat.UdtRefused | scylla-cql/src/serialize/value.rs:698-766 | a user-defined value of another name, or with a field that the type does not have, is refused |
| ValueFormat.LastNameWins | scylla-cql/src/serialize/value.rs:724-732 | of two values with the same name the last one is written |
| ValueFormat.ExtraBytesIgnored | scylla-cql/src/value.rs:1335-1500 | whatever follows the cells of a decoded tuple, list, set or map changes nothing |
| ValueFormat.DecimalAndDuration | scylla-cql/src/value.rs:1335-1500 | a decimal is its scale and then its digits, a duration its months, days and nanoseconds in this order |
| ValueFormat.ListBytes | scylla-cql/src/serialize/value.rs:877-926 | the bytes of a list or set of one element: count, length, element |
| ValueFormat.MapBytes | scylla-cql/src/serialize/value.rs:1023-1071 | the bytes of a map of one entry, the key first |
| ValueFormat.TupleBytes | scylla-cql/src/serialize/value.rs:768-793 | the bytes of a tuple of a value and a null: no count, the null as the length -1 |
| VectorLayout.FixedVectorMeaning | scylla-cql/src/frame/response/result.rs:169-192 | a vector of booleans, ints, floats, bigints, doubles, timestamps, uuids or timeuuids is its bytes cut into pieces of 1, 4, 8 or 16, each decoded by itself; it decodes iff there are enough and each does |
| VectorLayout.FixedVectorWritten | scylla-cql/src/serialize/value.rs:976-1021 | elements of these eight types are written one after the other |
| VectorLayout.VariableVectorWritten | scylla-cql/src/serialize/value.rs:976-1021 | elements of every other type that is no vector of them are written behind their lengths as vints |
| RoundTrip.ValueRoundTrip | scylla-cql/src/value.rs:1335-1500 | for every value and every type: decoding the serialized value returns it iff the value is faithful to the type |
| RoundTrip.EmptyLastElementLost | scylla-cql/src/deserialize/frame_slice.rs:171-177 | a vector of one empty text is accepted by the serializer and does not come back |
| RoundTrip.ListComesBackAsSet | scylla-cql/src/serialize/value.rs:607 | a list written as a set does not come back as a list |
| RoundTrip.ShortTupleLost | scylla-cql/src/serialize/value.rs:625-639 | a tuple shorter than its type is accepted and does not come back |
| RoundTrip.OutOfDayTimeLost | scylla-cql/src/serialize/value.rs:623 | no time outside the day comes back |
| RoundTrip.EmptiesLost | scylla-cql/src/value.rs:1340-1352 | neither a varint of no digits nor the empty value of a text comes back |
| RoundTrip.MissingFieldsLost | scylla-cql/src/serialize/value.rs:724-732 | a user-defined value without a field of its type does not come back |
| Reserialize.DecodedIsAccepted | scylla-cql/src/serialize/value.rs:578-654 | for types whose user-defined types have distinct field names, whatever bytes decode to the serializer accepts or finds too large, unless an empty value stands where its type has none, and then it refuses it |
| Canonical.CanonicalExactlyWhen | scylla-cql/src/value.rs:1335-1500 | for every type and all bytes: decoding and serializing again gives the same bytes iff they are canonical |
| Canonical.NativeStable | scylla-cql/src/serialize/value.rs:578-654 | the same for native types |
| Canonical.ListStable | scylla-cql/src/deserialize/value.rs:766-824 | the same for lists and sets |
| Canonical.MapStable | scylla-cql/src/deserialize/value.rs:1181-1259 | the same for maps |
| Canonical.FixedStable | scylla-cql/src/deserialize/value.rs:1033-1052 | the same for vectors of elements of a fixed size |
| Canonical.VariableStable | scylla-cql/src/deserialize/value.rs:1054-1090 | the same for other vectors |
| Canonical.UdtStable | scylla-cql/src/serialize/value.rs:698-766 | the same for user-defined types, repeated names included |
| Canonical.TupleStable | scylla-cql/src/value.rs:1483-1498 | the same for tuples |
| Canonical.BooleanTwo | scylla-cql/src/deserialize/value.rs:206-215 | a boolean of two decodes and is written as one |
| Reserialize.EmptyListRefused | scylla-cql/src/frame/response/result.rs:340-350 | an empty list decodes to such a value |
| Reserialize.PicksDecoded | scylla-cql/src/serialize/value.rs:724-732 | with distinct names the fields are taken out of the map in place |
| RoundTrip.NativeRoundTrip | scylla-cql/src/value.rs:1356-1436 | the same for native types |
| RoundTrip.DurationRoundTrip | scylla-cql/src/deserialize/value.rs:409-452 | three vints give back every duration |
| RoundTrip.WideDurationRejected | scylla-cql/src/deserialize/value.rs:419-437 | months or days that do not fit 32 bits are rejected |
| RoundTrip.ListRoundTrip | scylla-cql/src/deserialize/value.rs:766-824 | lists and sets come back iff their elements do |
| RoundTrip.MapRoundTrip | scylla-cql/src/deserialize/value.rs:1181-1259 | maps come back, in order, iff keys and values do |
| RoundTrip.VectorRoundTrip | scylla-cql/src/deserialize/value.rs:1003-1090 | vectors of fixed and of variable elements come back iff they are faithful |
| RoundTrip.TupleRoundTrip | scylla-cql/src/value.rs:1483-1498 | tuples come back, nulls included, iff they are complete |
| RoundTrip.UserDefinedTypeRoundTrip | scylla-cql/src/serialize/value.rs:698-766 | user-defined values come back iff their fields are those of the type in order, null where a name repeats |
| RoundTrip.OmittedFieldsRoundTrip | scylla-cql/src/deserialize/value.rs:1496-1521 | trailing null fields need not be written |
| NoPanic.NeverPanics | scylla-cql/src/value.rs:1335-1500 | a type that reaches no frozen collection and no vector of elements of 2^64 bytes or more decodes any bytes without panicking |
| NoPanic.HugeElementsPanic | scylla-cql/src/frame/response/result.rs:1301-1311 | a vector of elements of exactly 2^64 bytes panics on any byte |
| NoPanic.PanicBuffer | scylla-cql/src/deserialize/value.rs:770-782 | bytes of the shortest length that panic, for every type that has one |
| NoPanic.NoShorterPanic | scylla-cql/src/value.rs:1335-1500 | no shorter bytes panic |
| NoPanic.PanicsExactlyWhen | scylla-cql/src/value.rs:1335-1500 | for every type, some bytes panic iff it has a shortest length for them, which is computed from the type alone |
| NoPanic.ReachedIfItFits | scylla-cql/src/value.rs:1335-1500 | it has one if it reaches such a collection or vector and the way there fits a cell |
| NoPanic.ListBound | scylla-cql/src/deserialize/value.rs:784-799 | a decoded list or map fits its buffer whatever count it declares |
| FrameSlices.FrameSlice.ToBytes | scylla-cql/src/deserialize/frame_slice.rs:129-140 | the owned bytes are the bytes of the slice, and cutting them out stays in the frame |
| FrameSlices.FrameSlice.ReadCqlBytes | scylla-cql/src/deserialize/frame_slice.rs:147-162 | an item is the range of the frame it was read from and the slice continues after it; an error leaves the slice unchanged |
| FrameSlices.FrameSlice.ReadNBytes | scylla-cql/src/deserialize/frame_slice.rs:171-191 | the same for a number of bytes; an empty slice yields nothing |
| ValueIterators.FixedLengthBytesSequenceIterator.Next | scylla-cql/src/deserialize/value.rs:1687-1690 | reads one item while items remain, the range of the frame after its length |
| ValueIterators.BytesSequenceIterator.Next | scylla-cql/src/deserialize/value.rs:1717-1723 | reads one item until the slice is empty, again a range of the frame |
| ValueIterators.UdtIterator.Next | scylla-cql/src/deserialize/value.rs:1496-1521 | one item per field, a range of the frame, telling a missing from a null field |
| ValueIterators.ListlikeIterator.Next | scylla-cql/src/deserialize/value.rs:809-825 | takes the next element off what is left to decode, or fails as the rest would |
| ValueIterators.MapIterator.Next | scylla-cql/src/deserialize/value.rs:1214-1259 | the same for entries |
| ValueIterators.VectorIterator.ReadRaw | scylla-cql/src/deserialize/value.rs:1033-1080 | the raw element by size or by vint, the range of the frame that ends where the slice continues |
| ValueIterators.VectorIterator.Next | scylla-cql/src/deserialize/value.rs:1099-1104 | the same for vector elements |
| ValueIterators.CollectList | scylla-cql/src/deserialize/value.rs:857-863 | collecting stops at the first failure and otherwise gives all elements in order |
| ValueIterators.CollectMap | scylla-cql/src/value.rs:1444-1451 | the same for maps |
| ValueIterators.CollectVector | scylla-cql/src/value.rs:1459-1463 | the same for vectors |
| ValueIterators.CollectFields | scylla-cql/src/value.rs:1464-1482 | the same for fields, missing ones as nulls |
| ValueIterators.CollectElems | scylla-cql/src/value.rs:1483-1498 | the same for tuples |
| ValueIterators.DeserializeCounted | scylla-cql/src/deserialize/value.rs:766-800 | reads the count and drains the iterator |
| ValueIterators.DeserCqlValue | scylla-cql/src/value.rs:1335-1500 | the decoder of iterators and loops computes the decoder that the round trips are about, panics included |
| Typed.TypedNeverPanics | scylla-cql/src/deserialize/value.rs:742-872 | a typed target whose check passed never panics unless a dynamic part meets a type that can, or a vector the size of whose elements overflows |
| Typed.MapNeverPanics | scylla-cql/src/deserialize/value.rs:1163-1211 | the same for maps |
| Typed.EachNeverPanics | scylla-cql/src/deserialize/value.rs:1317-1357 | the same for tuples |
| Typed.FrozenPassesCheckAndPanics | scylla-cql/src/deserialize/value.rs:58-72 | the check of the dynamic target passes a frozen collection, whose decoding panics |
| Typed.RowNeverPanics | scylla-cql/src/deserialize/row.rs:202-248 | a tuple row whose check passed never panics, under the same condition |
| Typed.WrongWidthNeverDecodes | scylla-cql/src/deserialize/row.rs:223-248 | a row of another width is never decoded |
| Typed.VecAgreesWithDynamic | scylla-cql/src/deserialize/value.rs:850-871 | a `Vec` of dynamic values holds what the dynamic value would |
| Typed.MapAgreesWithDynamic | scylla-cql/src/deserialize/value.rs:1181-1259 | a map of dynamic values holds the entries of the dynamic map |
| Typed.TupleAgreesWithDynamic | scylla-cql/src/deserialize/value.rs:1333-1357 | a tuple of nullable dynamic values holds the elements of the dynamic tuple |
| Typed.ShapeCheckExact | scylla-cql/src/deserialize/value.rs:836-848 | the check of the shape of a list, map or tuple refuses exactly the types that would panic |
| TypeChecks.PanicWitness | scylla-cql/src/deserialize/value.rs:742-782 | for a target with a dynamic part, or with vectors that can grow too large, a type that passes the check and bytes that panic |
| TypeChecks.CheckProtectsExactlyWhen | scylla-cql/src/deserialize/value.rs:58-72 | the check protects a target for all types and bytes iff nothing in it is dynamic and no nested vector of elements of a fixed size can reach 2^64 bytes |
| TypeChecks.DepthOfBigInts | scylla-cql/src/frame/response/result.rs:1301-1311 | four nested vectors of bigints are protected, five are not |
| TypedMeaning.ScalarMeaning | scylla-cql/src/deserialize/value.rs:142-168 | a scalar whose type passed its check is what the dynamic decoding of the native type gives, and null is refused |
| TypedMeaning.NullableMeaning | scylla-cql/src/deserialize/value.rs:77-99 | an `Option` is null iff the cell is, and else what its inner target makes of it |
| TypedMeaning.MaybeEmptyMeaning | scylla-cql/src/deserialize/value.rs:116-139 | a `MaybeEmpty` is empty iff there are no bytes |
| TypedMeaning.NullCollections | scylla-cql/src/deserialize/value.rs:766-782 | a null is an empty list, set or map, and refused for a vector and a tuple |
| TypedMeaning.CollectionsAccepted | scylla-cql/src/deserialize/value.rs:836-848 | a `Vec` is taken from lists, sets and vectors, a set from sets only, a map from maps, and none from a frozen collection |
| TypedMeaning.ListMeaning | scylla-cql/src/deserialize/value.rs:853-872 | a list or set decodes iff each cell does for the element target, and holds what each decodes to in order |
| TypedMeaning.MapMeaning | scylla-cql/src/deserialize/value.rs:1181-1259 | a map holds for each pair of cells what the key and the value target make of them |
| TypedMeaning.TupleMeaning | scylla-cql/src/deserialize/value.rs:1332-1357 | a tuple holds at each place what the target of that place makes of the cell of that place |
| TypedMeaning.FixedVecMeaning | scylla-cql/src/deserialize/value.rs:1003-1104 | a `Vec` over a vector of a fixed width decodes it piece by piece |
| TypedMeaning.RowOfColumns | scylla-cql/src/deserialize/row.rs:223-248 | over any bytes a row decodes iff every column reads and decodes for its target, and then holds what each decodes to |
| TypedMeaning.RowMeaning | scylla-cql/src/deserialize/row.rs:223-248 | over the cells of any row it holds component by component what the targets make of them |
| TypedMeaning.TwoColumns | scylla-cql/src/deserialize/row.rs:226-240 | a row of two columns is both values, in order |
| Rows.ColumnIterator.Next | scylla-cql/src/deserialize/row.rs:61-81 | one column per spec, in order, each a range of the frame |
| Rows.RawRowIterator.Next | scylla-cql/src/deserialize/result.rs:61-80 | counts down, hands out the row at the slice and moves past its columns, or names the first bad column |
| Rows.RawRowLendingIterator.Next | scylla-cql/src/deserialize/result.rs:184-215 | the same from the offset it keeps |
| Rows.StepBoth | scylla-cql/src/deserialize/result.rs:184-215 | one call of each iterator at the same place gives the same item, its whole window included, and the same place |
| Rows.RunBoth | scylla-cql/src/deserialize/result.rs:184-215 | over any number of calls, errors included, both iterators yield the same items, windows included, and `raw_rows[at..]` stays the other's slice |
| RowRuns.RunShape | scylla-cql/src/deserialize/result.rs:61-88 | good rows, then the first bad column, then column 0 with the same cause and an unmoving slice |
| RowRuns.StuckAt | scylla-cql/src/deserialize/frame_slice.rs:147-162 | where a column cannot be read no call makes progress |
| RowRuns.SameErrorExactlyWhen | scylla-cql/src/deserialize/result.rs:83-88 | the first error itself is repeated iff no cell could be read off the slice at all |
| RowRuns.ErrorChanges | scylla-cql/src/deserialize/result.rs:83-88 | a null and a torn cell name column 1, then column 0 |
| RowRuns.ColumnsOfRow | scylla-cql/src/deserialize/row.rs:57-81 | a row is handed out iff all its columns read; otherwise the first bad one is named |
| RowRuns.CollectColumns | scylla-cql/src/deserialize/row.rs:61-81 | draining a column iterator yields exactly the columns |
| RowRuns.RowsTile | scylla-cql/src/deserialize/result.rs:64-79 | the rows and the unread rest laid end to end are the bytes given |
| RowRuns.RowsReadBack | scylla-cql/src/deserialize/result.rs:64-79 | rows of cells written one after the other are read back, row by row and column by column, with nothing left |
| RowRuns.DeserializeRow | scylla-cql/src/deserialize/row.rs:163-187 | a dynamic row decodes as a tuple of its column types |
| Varint.NormalizeKeepsValue | scylla-cql/src/value.rs:365-399 | normalization keeps the number and is idempotent |
| Varint.NormalForm | scylla-cql/src/value.rs:365-399 | negative strings are left alone, others are trimmed to at most one needed zero |
| Varint.EqualExactlyWhen | scylla-cql/src/value.rs:414-418 | strings are equal iff their numbers are and they are not negative or have the same length |
| Varint.LeadingOnesNotCollapsed | scylla-cql/src/value.rs:377-399 | minus one in one byte and in two differ |
| Timeuuid.MsbIsTimestamp | scylla-cql/src/value.rs:156-170 | the reordered bytes are the 60-bit timestamp of section 4.1.4 of RFC 4122 |
| Timeuuid.LsbSignedIsFlipped | scylla-cql/src/value.rs:172-182 | one xor flips the sign bit of each low byte |
| Timeuuid.CompareMeaning | scylla-cql/src/value.rs:224-232 | timestamps decide, then the low bytes as signed bytes in lexicographic order |
| Timeuuid.SameExactlyWhen | scylla-cql/src/value.rs:240-244 | values are equal iff their bytes agree outside the version nibble |
| Timeuuid.TotalOrder | scylla-cql/src/value.rs:224-238 | the comparison is a total order on values up to equality |
| Timeuuid.HashAgrees | scylla-cql/src/value.rs:246-251 | values feed a hasher alike iff they are equal |
| Times.ToTimeExactlyWhen | scylla-cql/src/value.rs:834-851 | despite wrapping casts exactly the times of a day convert, to the hour, minute, second and nanosecond that add up to them, and back |
| Times.TimeRoundTrip | scylla-cql/src/value.rs:822-851 | every time of day comes back |
| Times.ToNaiveTimeExactlyWhen | scylla-cql/src/value.rs:735-748 | exactly the times of a day convert, none to a leap second |
| Opcodes.OpcodeRoundTrip | scylla-cql/src/frame/request/mod.rs:109-147 | each opcode is read back in its direction and in no other |
| Frames.HasFlagIsMask | scylla-cql/src/frame/mod.rs:272-325 | a flag is set iff masking it leaves something |
| Frames.ForResponse | scylla-proxy/src/frame.rs:27-40 | marks the version as a response's and nothing else; undone by the request form |
| Frames.DecompressInverts | scylla-cql/src/frame/mod.rs:329-372 | decompression inverts compression of bodies under 4 GiB if the libraries do |
| Frames.HeaderRoundTrip | scylla-proxy/src/frame.rs:250-318 | a header parses to its parts iff version and opcode go in the direction read |
| Frames.FrameRoundTrip | scylla-proxy/src/frame.rs:237-338 | a written frame is read back and what follows is left |
| Frames.PlainFrameRoundTripExactlyWhen | scylla-proxy/src/frame.rs:237-338 | an uncompressed frame comes back iff it is directed and its body is under 4 GiB |
| FrameStreams.UnsetCellFrames | scylla-proxy/src/proxy.rs:967-977 | frames parsed before the cell was set parse the same under whatever it is set to |
| FrameStreams.UnsetCellWrites | scylla-proxy/src/proxy.rs:946-965 | frames written before the cell was set are written the same under whatever it is set to |
| FrameStreams.MoreBytesFrames | scylla-proxy/src/frame.rs:267-338 | bytes that arrive later do not change what was parsed |
| FrameStreams.AllWrittenBack | scylla-proxy/src/frame.rs:237-338 | frames without compression are written back byte for byte |
| Frames.FramesRoundTrip | scylla-proxy/src/frame.rs:237-338 | lists of frames are read back, and no byte more |
| Frames.ReadFrame | scylla-proxy/src/frame.rs:267-338 | reading in chunks computes the parse of the whole stream, errors included |
| Frames.DeliverFrames | scylla-proxy/src/frame.rs:267-338 | frames written at one end arrive at the other in whatever non-empty chunks |
| Frames.SendFrame | scylla-proxy/src/frame.rs:237-265 | writes header and body, or nothing if the body cannot be compressed |
| Frames.FillHeader | scylla-proxy/src/frame.rs:250-259 | the nine bytes of the header filled in place |
| Frames.SerializedRequest.Make | scylla-cql/src/frame/mod.rs:126-155 | the frame that `write_frame` would write for version 4, these flags and stream 0 |
| Frames.SerializedRequest.SetStream | scylla-cql/src/frame/mod.rs:160-162 | changes the two bytes of the stream only |
| Frames.RequestFlagsRead | scylla-cql/src/frame/mod.rs:131-146 | the flags of a request say whether it is compressed and traced, and nothing else |
| Frames.RequestRoundTrip | scylla-cql/src/frame/mod.rs:126-162 | a request with its stream set parses to that stream, the flags and the body |
| Extensions.StringListRoundTrip | scylla-cql/src/frame/types.rs:472-491 | string lists are read back |
| Extensions.MapRoundTrip | scylla-cql/src/frame/types.rs:346-373 | a map written in any order is read back as that map |
| Extensions.TakeStringList | scylla-cql/src/frame/types.rs:472-479 | the reading loop |
| Extensions.TakeMap | scylla-cql/src/frame/types.rs:346-357 | the reading loop, later entries replacing earlier ones |
| Extensions.PutStringList | scylla-cql/src/frame/types.rs:481-491 | the writing loop |
| Extensions.PutMap | scylla-cql/src/frame/types.rs:359-373 | writes every entry once in some order, and fails iff something does not fit |
| Extensions.ExtensionsRoundTrip | scylla-cql/src/frame/mod.rs:272-325 | trace id, warnings, payload in any order and body are parsed back, compressed or not, each stage taking its own bytes |
| Extensions.ParseResponseBody | scylla-cql/src/frame/mod.rs:272-325 | the parser that moves the start of the body computes that parse |
| WireFormat.OpcodeNumbers | scylla-cql/src/frame/request/mod.rs:109-147 | the number of every opcode |
| WireFormat.FrameBytes | scylla-proxy/src/frame.rs:237-265 | a frame without compression byte by byte |
| WireFormat.StartupFrameBytes | scylla-proxy/src/frame.rs:237-265 | the eleven bytes of a STARTUP without options |
| WireFormat.VersionBit | scylla-proxy/src/frame.rs:267-318 | a frame is taken from the driver iff its version is below 128, from the cluster iff it is not |
| WireFormat.CompressionFlag | scylla-cql/src/frame/mod.rs:329-353 | flag 1 compresses the body: LZ4 behind its length in four bytes, Snappy as it is |
| WireFormat.CompressionErrors | scylla-cql/src/frame/mod.rs:357-372 | a flagged body without a negotiated compression is an error, an LZ4 body too short for its length a panic |
| WireFormat.FrameRefused | scylla-proxy/src/frame.rs:267-338 | a frame that goes the other way is refused by name, and a stream of requests that ends within a frame says how much is missing |
| WireFormat.NoExtensions | scylla-cql/src/frame/mod.rs:272-325 | without flags the body of a response is all there is |
| WireFormat.TracingFlag | scylla-cql/src/frame/mod.rs:40-49 | flag 2 and nothing else: 16 bytes of trace id come first |
| WireFormat.PayloadFlag | scylla-cql/src/frame/mod.rs:40-49 | flag 4: a map of payloads comes first |
| WireFormat.WarningFlag | scylla-cql/src/frame/mod.rs:40-49 | flag 8: a list of warnings comes first |
| WireFormat.AllExtensions | scylla-cql/src/frame/mod.rs:272-325 | flags 2, 4 and 8 together: trace id, warnings, payload, body |
| WireFormat.ExtensionErrors | scylla-cql/src/frame/mod.rs:284-318 | a body too short for what its flag announces is refused by the name of what is missing |
| Conditions.EvalKeepsShape | scylla-proxy/src/actions.rs:65-121 | evaluation changes nothing but counters |
| Conditions.EvalSpends | scylla-proxy/src/actions.rs:65-121 | exactly the counters that short-circuiting reaches go down by one, if positive |
| Conditions.EvalBudget | scylla-proxy/src/actions.rs:111-117 | the total drops by the number of positive counters reached |
| Conditions.CounterFree | scylla-proxy/src/actions.rs:65-121 | without counters evaluation changes nothing |
| Conditions.Node.Evaluate | scylla-proxy/src/actions.rs:65-121 | evaluation of the boxed tree in place gives the value and the new tree |
| Conditions.ContainsMeaning | scylla-proxy/src/actions.rs:93-96 | some window of the body equals the pattern iff the body has it between two parts |
| Conditions.ContainsIgnoreCaseMeaning | scylla-proxy/src/actions.rs:98-106 | the same up to ASCII case; for a valid pattern the check that a window is valid UTF-8 never matters |
| Conditions.All | scylla-proxy/src/actions.rs:140-151 | the loop puts each condition in front of those before |
| Conditions.Any | scylla-proxy/src/actions.rs:154-165 | the same for disjunction |
| Conditions.AllIsConjunction | scylla-proxy/src/actions.rs:140-151 | `all` is conjunction where nothing panics |
| Conditions.AnyIsDisjunction | scylla-proxy/src/actions.rs:154-165 | `any` is disjunction where nothing panics |
| Conditions.AllIsFold | scylla-proxy/src/actions.rs:140-151 | with counters and panics `all` is a last-to-first short-circuiting fold |
| Conditions.AnyIsFold | scylla-proxy/src/actions.rs:154-165 | the same for `any` |
| Conditions.FoldReaches | scylla-proxy/src/actions.rs:71-75 | only the conditions that the fold reaches are updated |
| ConditionMeaning.LeavesSay | scylla-proxy/src/actions.rs:77-110 | each leaf is true iff its statement holds of the frame: its opcode is this one, its body has the pattern as it is or up to ASCII case, its connection has this number, events were registered |
| ConditionMeaning.EvalMeaning | scylla-proxy/src/actions.rs:65-121 | a condition without counters and coins that is safe for the direction evaluates to what it says of the frame, by an independent reading, and stays as it is |
| ConditionMeaning.ConnectivesSay | scylla-proxy/src/actions.rs:69-75 | negation, conjunction and disjunction where nothing panics |
| ConditionMeaning.CoinsAndCounters | scylla-proxy/src/actions.rs:108-117 | a random condition is its coin, a counter is true while it lasts and goes down by one |
| ConditionMeaning.ScanMeans | scylla-proxy/src/proxy.rs:1268-1343 | a scan of such rules gives the reaction of the first that holds of the frame, none iff none does, and leaves all of them as they were |
| Rules.RuleList.ScanRules | scylla-proxy/src/proxy.rs:1269-1343 | the rule loop in place finds the rule and leaves the rules of the scan |
| Rules.RuleList.FindRule | scylla-proxy/src/proxy.rs:1268-1343 | a poisoned lock panics with the rules untouched; a scan that panics poisons it |
| Rules.RuleList.Replace | scylla-proxy/src/proxy.rs:397-412 | replaces the rules unless the lock is poisoned |
| Rules.LeafPanicsExactlyWhen | scylla-proxy/src/actions.rs:79-110 | a leaf condition panics on every frame of a direction iff it is not safe for it, and else on none |
| Rules.SafeScan | scylla-proxy/src/actions.rs:65-121 | safe rules scan without a panic and stay safe |
| Rules.ScanMeaning | scylla-proxy/src/proxy.rs:1269-1343 | the first rule whose condition holds applies; the rules after it are left alone |
| Rules.RunKeeps | scylla-proxy/src/proxy.rs:1268-1343 | runs of scans keep all shapes and reactions and spend exactly what they reach |
| Rules.WindowPasses | scylla-proxy/src/actions.rs:111-117 | with rules for a window the i-th scanned frame is passed iff a <= i < a + b |
| ProxySafety.RunKeepsInv | scylla-proxy/src/proxy.rs:1231-1457 | every step of every worker, crashes and replaced rules included, keeps the invariant of the node |
| ProxySafety.ApplyKeeps | scylla-proxy/src/proxy.rs:1268-1343 | applying a rule or the default action keeps it |
| ProxySafety.TakeKeeps | scylla-proxy/src/proxy.rs:1245-1267 | taking a request sets the flag and the cell to what the requests taken so far say |
| ProxyWire.RunKeepsWire | scylla-proxy/src/proxy.rs:1062-1229 | at all times everything that receivers ever parsed and senders ever wrote is as under the present value of the cell, although it was set in between |
| ProxyWire.TakeKeepsWire | scylla-proxy/src/proxy.rs:905-929 | setting the cell keeps that |
| ProxyWire.ReceiveKeepsWire | scylla-proxy/src/proxy.rs:1062-1095 | so does a receiver, whether it parses a frame or stops |
| ProxyWire.TransmitKeepsWire | scylla-proxy/src/proxy.rs:1181-1229 | so does a sender |
| Proxy.StartupNegotiates | scylla-proxy/src/proxy.rs:912-929 | a STARTUP whose options, in any order, ask for a compression negotiates that one |
| Proxy.NameRoundTrip | scylla-cql/src/frame/mod.rs:74-103 | the name of a compression is read back as it |
| ProxyWorkers.CompressionWriter.SetFromStartup | scylla-proxy/src/proxy.rs:912-929 | sets the cell unless it was set before or the body cannot be parsed |
| ProxyWorkers.CompressionWriter.Set | scylla-proxy/src/proxy.rs:905-910 | the cell is written once |
| ProxyWorkers.MakeCompressionInfra | scylla-proxy/src/proxy.rs:980-995 | the writer and the four readers are handles of one new cell |
| ProxyWorkers.Connection.ReceiveFrame | scylla-proxy/src/proxy.rs:1062-1095 | one pass of a receiver, reading through its own handle, is the step that receives |
| ProxyWorkers.Connection.TransmitFrame | scylla-proxy/src/proxy.rs:1181-1229 | one pass of a sender, reading through its own handle, is the step that transmits |
| ProxyWorkers.Connection.TakeRequest | scylla-proxy/src/proxy.rs:1245-1267 | takes a request, stores what it says and loads the flag: the steps that take and load |
| ProxyWorkers.Connection.ProcessRequest | scylla-proxy/src/proxy.rs:1244-1347 | one pass of the request processor is the step functions one after the other, a crash included |
| ProxyWorkers.Connection.ProcessResponse | scylla-proxy/src/proxy.rs:1365-1452 | one pass of the response processor likewise |
| ProxyWorkers.PassIsThreeSteps | scylla-proxy/src/proxy.rs:1244-1347 | a pass that nobody interrupts is the steps that take and load and the one that applies or crashes |
| ProxyRuns.EveryFrameAccountedFor | scylla-proxy/src/proxy.rs:1244-1343 | in every reachable state each received frame is queued, in hand, sent on exactly once, or left to one rule with exactly the copies asked for, sent or pending; in hand and queued frames of a dead processor are the lost ones |
| ProxyRuns.ExactCopiesExactlyWhen | scylla-proxy/src/proxy.rs:1289-1338 | a reaction gets its exact copies in all runs iff it does not forge without a processor |
| ProxyRuns.DefaultsKeepOrder | scylla-proxy/src/proxy.rs:1343 | frames sent on by default leave in the order of arrival and unmodified |
| ProxyRuns.PassedCopies | scylla-proxy/src/proxy.rs:1289-1300 | a passed copy is the frame as it came, or as the processor of its rule changed it |
| ProxyRuns.ForgedCopies | scylla-proxy/src/proxy.rs:1302-1316 | a forged copy is what the processor of the rule makes of the frame as it came |
| ProxyRuns.WaysOfFrames | scylla-proxy/src/proxy.rs:1289-1343 | what is on its way to one end is forged iff it answers a frame from that end |
| ProxyRuns.SetBeforeHandOver | scylla-proxy/src/proxy.rs:1247-1267 | when a REGISTER or a parsable STARTUP is on its way to the cluster the flag or the cell is set, the cell to what the first STARTUP taken says |
| ProxyRuns.RunKeepsFlags | scylla-proxy/src/proxy.rs:905-929 | once set neither changes in any run |
| ProxyRuns.FlagsExactlyWhen | scylla-proxy/src/proxy.rs:1247-1267 | in every reachable state the event flag is set iff a REGISTER was taken, and the cell iff a STARTUP with a readable map of strings was |
| ProxyRuns.LaterResponsesSee | scylla-proxy/src/proxy.rs:1368-1373 | every response processed after that sees the flag |
| ProxyRuns.TrafficAfterStartup | scylla-proxy/src/proxy.rs:1062-1267 | once a parsable STARTUP was handed over, both receivers have parsed and both senders have written everything, before and ever after, as the first such STARTUP asked |
| ProxyRuns.RulesAfterRun | scylla-proxy/src/proxy.rs:1268-1343 | whatever the connections do, the rules are those of the last replacement after the scans since, in the order of the lock |
| ProxyRuns.WindowOfRequests | scylla-proxy/src/proxy.rs:1268-1343 | the window of frames since such rules were set holds across all connections of a node |
| ProxyDecisions.EveryDecision | scylla-proxy/src/proxy.rs:1245-1343 | in every run under rules without counters and coins, each frame decided about on any connection met the first rule that holds of its own opcode and body, its connection and, for requests, the REGISTERs up to it |
| ProxyDecisions.OpcodeRuleDecides | scylla-proxy/src/actions.rs:79-84 | over all runs a rule about a request opcode consumes exactly the requests with it |
| ProxyDecisions.ResponseRuleDecides | scylla-proxy/src/actions.rs:86-91 | and one about a response opcode exactly the responses with it |
| ProxyDecisions.BodyRuleDecides | scylla-proxy/src/actions.rs:93-96 | one about a pattern exactly the frames whose received body has it |
| ProxyDecisions.EventRuleDecides | scylla-proxy/src/proxy.rs:1247-1266 | one about registered events exactly a REGISTER and the requests after it on the same connection |
| ProxyDecisions.ConnectionRuleDecides | scylla-proxy/src/proxy.rs:1262-1267 | one about a connection exactly the frames on it |
| ProxyStartup.NegotiatesExactlyWhen | scylla-proxy/src/proxy.rs:912-929 | a STARTUP whose options are written in any order negotiates LZ4 or Snappy iff the option spelt COMPRESSION is spelt lz4 or snappy, none iff it is missing or something else |
| ProxyStartup.UnreadableStartup | scylla-proxy/src/proxy.rs:912-916 | a frame leaves the cell unset iff it is no STARTUP or its body is no map of strings |
| ProxyStartup.StartupBytes | scylla-proxy/src/proxy.rs:912-929 | what the bytes of an empty map, of the one option asking for LZ4 and of no map negotiate |
| ProxyStartup.PlainStartupPassesThrough | scylla-proxy/src/proxy.rs:421-434 | without rules, where the first STARTUP received does not ask for a known compression, what was written to each end is a prefix of what the other end wrote |
| ProxyProgress.CanDrain | scylla-proxy/src/proxy.rs:1062-1347 | from every reachable state of a node without rules some run passes on all that arrived as whole frames on a lane that is alive |
| ProxyProgress.DrainedBytes | scylla-proxy/src/proxy.rs:1062-1347 | without compression what was then written and what is still unread are together all that arrived |
| ProxyProgress.PassCanRun | scylla-proxy/src/proxy.rs:1289-1300 | a pending pass can always be carried out and then sends one more copy |
| ProxyProgress.ForgeCanRun | scylla-proxy/src/proxy.rs:1302-1316 | so can a pending forge, which sends a copy unless it has no processor |
| ProxyProgress.ReplaceCanRun | scylla-proxy/src/proxy.rs:397-407 | rules can be replaced iff their lock is not poisoned, and then are the new ones |
| ProxyProgress.NoopAndDrop | scylla-proxy/src/actions.rs:284-304 | a frame left to the no-op reaction is passed once and answered by nothing, one left to the dropping reaction never passed |
| ProxyCrashes.PoisonedExactlyWhen | scylla-proxy/src/proxy.rs:1268-1270 | a lock is poisoned iff some processor of its direction died |
| ProxyCrashes.PoisonStops | scylla-proxy/src/proxy.rs:1268-1270 | from then on, in every run, no connection old or new decides about another frame of that direction and the rules stay as they are |
| ProxyCrashes.LostForever | scylla-proxy/src/proxy.rs:1268-1343 | no copy is ever sent of the frame that a dead processor held, nor of any behind it |
| ProxyCrashes.SafeRulesNeverCrash | scylla-proxy/src/actions.rs:65-121 | if all rules that a direction ever has are safe, no run kills a processor and every frame that comes to be scanned is decided about, whatever the random conditions say |
| ProxyCrashes.LeafCrashesExactlyWhen | scylla-proxy/src/actions.rs:79-110 | a rule with a leaf for its condition can crash a node iff the leaf is not safe for the direction |
| ProxyCrashes.UnsafeLeafCrashes | scylla-proxy/src/actions.rs:79-110 | in front of any further rules an unsafe leaf crashes on the first frame |
| ProxyCrashes.CrashSpreads | scylla-proxy/src/proxy.rs:1268-1270 | a condition that panics on the first connection only leaves the second one nothing but to crash |
| ProxyCrashes.ReceiverStops | scylla-proxy/src/proxy.rs:1062-1131 | a receiver stops exactly at bytes that are no frame or after a frame that it finds nobody to hand to |
| ProxyCrashes.SenderStops | scylla-proxy/src/proxy.rs:1132-1229 | a sender stops exactly at a frame that cannot be written, and writes nothing of it |
| ProxyCrashes.StoppedStays | scylla-proxy/src/proxy.rs:1062-1229 | over all runs one that stopped neither reads nor writes again |
| PassThrough.FramesPassThrough | scylla-proxy/src/proxy.rs:421-434 | without rules the frames that one end parses from what the proxy wrote are the first ones parsed from what the other end wrote |
| PassThrough.NothingRefused | scylla-proxy/src/proxy.rs:1181-1229 | and no sender stops at a frame, unless Snappy refuses to compress it |
| PassThrough.BytesPassThrough | scylla-proxy/src/proxy.rs:421-434 | where no compression was negotiated the bytes written to each end are the first ones that the other end wrote |
| PortSearch.FindPort | scylla-proxy/src/proxy.rs:757-769 | tries distinct ports p + k*s mod 65536 in order, takes the first that binds, and gives up after exactly 65536/gcd(s, 65536) failures |
| PortSearch.NextIsPortAt | scylla-proxy/src/proxy.rs:806-808 | wrapping addition steps to the next port of that sequence |
| PortSearch.ReturnsAfterPeriod | scylla-proxy/src/proxy.rs:757-769 | ports repeat exactly after whole periods |
| PortSearch.PortAfterWraps | scylla-proxy/src/proxy.rs:806-808 | after w wraparounds the port is congruent to p - w*65536 mod s |
| PortSearch.ShardKeptExactlyWhen | scylla-proxy/src/proxy.rs:757-769 | the shard is kept iff the wraparounds are a multiple of s/gcd(65536, s) |
| PortSearch.ShardKept | scylla-proxy/src/proxy.rs:757-769 | so it is kept without wraparound, and always if s divides 65536 |
| PortSearch.ShardLost | scylla-proxy/src/proxy.rs:806-808 | with three shards one step past the last port changes the shard |

## Left out

- Sockets, TLS, task scheduling, real time and logging.
- Shutdown, dropped connections and error propagation between workers; the action that drops a connection and the feedback channel of a rule.
- Without overflow checks `type_size` wraps around instead of panicking; a vector of such elements would then be cut by the wrapped size.
- The internals of LZ4, Snappy, the calendar libraries, num-bigint and bigdecimal.
- Derive macros, by-name row serialization, borrowed targets and the UDT iterator as a typed target.
- The kinds and texts of decoding and serialization errors beyond those a property names.
- Inet addresses with ports, consistencies, short bytes, long strings, string multimaps and raw values of the primitives.
- `TypedRowIterator`, which only composes a row iterator with a row decoder.
- The dry mode of a node, where requests have no cluster to go to.
- Serialization is modelled on values; the in-place cell writers of scylla-cql/src/serialize/writers.rs are not.
- Reserialize.DecodedIsAccepted: for types whose user-defined types have distinct field names, because the serializer takes the last value of a repeated name for the first field of that name, whose type may be another; Canonical.CanonicalExactlyWhen has no such limit.
- TypeChecks.CheckProtectsExactlyWhen: for targets whose witness fits a cell (`Size` at most 2^31 - 1), because the bytes that reach a deeper part would not fit one; Typed.TypedNeverPanics has no such limit.
- ProxyCrashes.SafeRulesNeverCrash: one way only for conditions with more than one leaf, because whether a leaf is reached depends on what the leaves before it say of all frames to come; ProxyCrashes.LeafCrashesExactlyWhen is exact for single leaves.
- PassThrough.FramesPassThrough: for bodies that can be packed again within 2^32 - 1 bytes, because the length field of a header holds no more.
- Typed.TypedNeverPanics: what a scalar target makes of a type its check refuses is not modelled beyond that it does not panic.
- FrameSlices.FrameSlice.ReadVint: does not say where a failed read leaves the slice, because that is up to the reader of the standard library.
