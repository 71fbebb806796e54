/**
  Counted lists and maps, and the extensions in front of the body of a response:
  trace id, warnings and custom payload. Models the list and map readers and
  writers of scylla-cql/src/frame/types.rs and `parse_response_body_extensions`
  of scylla-cql/src/frame/mod.rs.
 */
module Extensions {
  import opened Wire
  import opened CqlTypes
  import opened Frames

  // --------------------------------------------------------------------- lists

  function ReadStrings(n: nat, buf: bytes): (r: ReadResult<seq<bytes>>)
    ensures r.Ok? ==> |r.value.rest| <= |buf|
  {
    if n == 0 then Ok(Read([], buf))
    else
      var head :- ReadString(buf);
      var tail :- ReadStrings(n - 1, head.rest);
      Ok(Read([head.value] + tail.value, tail.rest))
  }

  function ReadStringList(buf: bytes): (r: ReadResult<seq<bytes>>)
    ensures r.Ok? ==> |r.value.rest| <= |buf|
  {
    var n :- ReadShort(buf);
    ReadStrings(n.value, n.rest)
  }

  function WriteStrings(l: seq<bytes>): (r: Result<bytes, LowLevelError>) {
    if l == [] then Ok([])
    else
      var head :- WriteString(l[0]);
      var tail :- WriteStrings(l[1..]);
      Ok(head + tail)
  }

  function WriteStringList(l: seq<bytes>): (r: Result<bytes, LowLevelError>) {
    var n :- WriteShortLength(|l|);
    var body :- WriteStrings(l);
    Ok(n + body)
  }

  predicate AllUtf8(l: seq<bytes>) {
    forall i :: 0 <= i < |l| ==> Utf8Valid(l[i])
  }

  lemma {:induction false} StringsRoundTrip(l: seq<bytes>, rest: bytes)
    requires WriteStrings(l).Ok? && AllUtf8(l)
    ensures ReadStrings(|l|, WriteStrings(l).value + rest) == Ok(Read(l, rest))
  {
    hide ReadString, WriteString, Utf8Valid;
    if l == [] {
      assert WriteStrings(l).value + rest == rest;
    } else {
      var head, tail := WriteString(l[0]).value, WriteStrings(l[1..]).value;
      StringRoundTrip(l[0], tail + rest);
      StringsRoundTrip(l[1..], rest);
      assert WriteStrings(l).value + rest == head + (tail + rest);
      assert [l[0]] + l[1..] == l;
    }
  }

  lemma StringListRoundTrip(l: seq<bytes>, rest: bytes)
    requires WriteStringList(l).Ok? && AllUtf8(l)
    ensures ReadStringList(WriteStringList(l).value + rest) == Ok(Read(l, rest))
  {
    hide ReadShort, ReadStrings, WriteStrings, AllUtf8;
    var n, body := WriteShortLength(|l|).value, WriteStrings(l).value;
    ShortRoundTrip(|l|, body + rest);
    StringsRoundTrip(l, rest);
    assert n + body + rest == n + (body + rest);
  }

  // ---------------------------------------------------------------------- maps

  /** The values of a string map or of a bytes map. */
  datatype Values = Strings | Blobs

  datatype Pair = Pair(key: bytes, value: bytes)

  function ReadValue(kind: Values, buf: bytes): (r: ReadResult<bytes>)
    ensures r.Ok? ==> |r.value.rest| <= |buf|
  {
    if kind.Strings? then ReadString(buf) else ReadBytes(buf)
  }

  function WriteValue(kind: Values, v: bytes): (r: Result<bytes, LowLevelError>) {
    if kind.Strings? then WriteString(v) else WriteBytes(v)
  }

  function ReadPairs(kind: Values, n: nat, m: map<bytes, bytes>, buf: bytes): (r: ReadResult<map<bytes, bytes>>)
    ensures r.Ok? ==> |r.value.rest| <= |buf|
    decreases n
  {
    if n == 0 then Ok(Read(m, buf))
    else
      var key :- ReadString(buf);
      var value :- ReadValue(kind, key.rest);
      ReadPairs(kind, n - 1, m[key.value := value.value], value.rest)
  }

  function ReadMap(kind: Values, buf: bytes): (r: ReadResult<map<bytes, bytes>>)
    ensures r.Ok? ==> |r.value.rest| <= |buf|
  {
    var n :- ReadShort(buf);
    ReadPairs(kind, n.value, map[], n.rest)
  }

  function WritePair(kind: Values, p: Pair): (r: Result<bytes, LowLevelError>) {
    var key :- WriteString(p.key);
    var value :- WriteValue(kind, p.value);
    Ok(key + value)
  }

  function WritePairs(kind: Values, ps: seq<Pair>): (r: Result<bytes, LowLevelError>) {
    if ps == [] then Ok([])
    else
      var head :- WritePair(kind, ps[0]);
      var tail :- WritePairs(kind, ps[1..]);
      Ok(head + tail)
  }

  /** A map is written in the order `ps` in which it happens to be iterated. */
  function WriteMap(kind: Values, ps: seq<Pair>): (r: Result<bytes, LowLevelError>) {
    var n :- WriteShortLength(|ps|);
    var body :- WritePairs(kind, ps);
    Ok(n + body)
  }

  predicate PairUtf8(kind: Values, p: Pair) {
    Utf8Valid(p.key) && (kind.Strings? ==> Utf8Valid(p.value))
  }

  function InsertAll(ps: seq<Pair>, m: map<bytes, bytes>): (r: map<bytes, bytes>)
    decreases |ps|
  {
    if ps == [] then m else InsertAll(ps[1..], m[ps[0].key := ps[0].value])
  }

  lemma PairRoundTrip(kind: Values, p: Pair, rest: bytes)
    requires WritePair(kind, p).Ok? && PairUtf8(kind, p)
    ensures var key := ReadString(WritePair(kind, p).value + rest);
            && key.Ok? && key.value.value == p.key
            && ReadValue(kind, key.value.rest) == Ok(Read(p.value, rest))
  {
    hide ReadString, WriteString, ReadBytes, WriteBytes, Utf8Valid;
    var key, value := WriteString(p.key).value, WriteValue(kind, p.value).value;
    StringRoundTrip(p.key, value + rest);
    if kind.Strings? {
      StringRoundTrip(p.value, rest);
    } else {
      BytesRoundTrip(p.value, rest);
    }
    assert key + value + rest == key + (value + rest);
  }

  lemma {:induction false} PairsRoundTrip(kind: Values, ps: seq<Pair>, m: map<bytes, bytes>, rest: bytes)
    requires WritePairs(kind, ps).Ok? && forall i :: 0 <= i < |ps| ==> PairUtf8(kind, ps[i])
    ensures ReadPairs(kind, |ps|, m, WritePairs(kind, ps).value + rest) == Ok(Read(InsertAll(ps, m), rest))
    decreases |ps|
  {
    hide ReadString, ReadValue, WritePair, PairUtf8;
    if ps == [] {
      assert WritePairs(kind, ps).value + rest == rest;
    } else {
      var head, tail := WritePair(kind, ps[0]).value, WritePairs(kind, ps[1..]).value;
      PairRoundTrip(kind, ps[0], tail + rest);
      PairsRoundTrip(kind, ps[1..], m[ps[0].key := ps[0].value], rest);
      assert head + tail + rest == head + (tail + rest);
    }
  }

  /** `ps` lists the entries of `m`, each once, in any order. */
  ghost predicate Lists(ps: seq<Pair>, m: map<bytes, bytes>) {
    && (forall i :: 0 <= i < |ps| ==> ps[i].key in m && m[ps[i].key] == ps[i].value)
    && (forall k :: k in m ==> exists i :: 0 <= i < |ps| && ps[i].key == k)
    && (forall i, j :: 0 <= i < j < |ps| ==> ps[i].key != ps[j].key)
  }

  lemma {:induction false} InsertAllAt(ps: seq<Pair>, m: map<bytes, bytes>, k: bytes)
    requires forall i, j :: 0 <= i < j < |ps| ==> ps[i].key != ps[j].key
    ensures k in InsertAll(ps, m) <==> k in m || exists i :: 0 <= i < |ps| && ps[i].key == k
    ensures forall i :: 0 <= i < |ps| && ps[i].key == k ==> k in InsertAll(ps, m) && InsertAll(ps, m)[k] == ps[i].value
    ensures k in m && (forall i :: 0 <= i < |ps| ==> ps[i].key != k) ==>
              k in InsertAll(ps, m) && InsertAll(ps, m)[k] == m[k]
    decreases |ps|
  {
    if ps != [] {
      InsertAllAt(ps[1..], m[ps[0].key := ps[0].value], k);
      assert forall i :: 0 < i < |ps| ==> ps[i] == ps[1..][i - 1];
    }
  }

  lemma InsertAllGivesMap(ps: seq<Pair>, m: map<bytes, bytes>)
    requires Lists(ps, m)
    ensures InsertAll(ps, map[]) == m
  {
    forall k: bytes
      ensures k in InsertAll(ps, map[]) <==> k in m
      ensures k in m ==> k in InsertAll(ps, map[]) && InsertAll(ps, map[])[k] == m[k]
    {
      InsertAllAt(ps, map[], k);
    }
  }

  /** A map written in any order is read back as that map. */
  lemma MapRoundTrip(kind: Values, ps: seq<Pair>, m: map<bytes, bytes>, rest: bytes)
    requires WriteMap(kind, ps).Ok? && Lists(ps, m)
    requires forall i :: 0 <= i < |ps| ==> PairUtf8(kind, ps[i])
    ensures ReadMap(kind, WriteMap(kind, ps).value + rest) == Ok(Read(m, rest))
  {
    hide ReadShort, ReadPairs, WritePairs, PairUtf8, Lists;
    var n, body := WriteShortLength(|ps|).value, WritePairs(kind, ps).value;
    ShortRoundTrip(|ps|, body + rest);
    PairsRoundTrip(kind, ps, map[], rest);
    InsertAllGivesMap(ps, m);
    assert n + body + rest == n + (body + rest);
  }

  // ------------------------------------------------- reading and writing loops

  /** Moves the cursor past what was read. */
  method Advance<T>(buf: Cursor, read: ReadResult<T>) returns (r: Result<T, LowLevelError>)
    modifies buf
    ensures match read
            case Err(e) => r == Err(e)
            case Ok(x) => r == Ok(x.value) && buf.rest == x.rest
  {
    if read.Err? {
      return Err(read.error);
    }
    buf.rest := read.value.rest;
    r := Ok(read.value.value);
  }

  method TakeStringList(buf: Cursor) returns (r: Result<seq<bytes>, LowLevelError>)
    modifies buf
    ensures match ReadStringList(old(buf.rest))
            case Err(e) => r == Err(e)
            case Ok(x) => r == Ok(x.value) && buf.rest == x.rest
  {
    hide ReadString, ReadShort;
    ghost var all := ReadStringList(buf.rest);
    var n :- Advance(buf, ReadShort(buf.rest));
    var l := [];
    assert all.Ok? ==> [] + all.value.value == all.value.value;
    for i := 0 to n
      invariant match ReadStrings(n - i, buf.rest)
                case Err(e) => all == Err(e)
                case Ok(x) => all == Ok(Read(l + x.value, x.rest))
    {
      ghost var left := ReadStrings(n - i, buf.rest);
      var s :- Advance(buf, ReadString(buf.rest));
      ghost var left' := ReadStrings(n - i - 1, buf.rest);
      assert left'.Ok? ==> l + ([s] + left'.value.value) == l + [s] + left'.value.value;
      l := l + [s];
    }
    assert l + [] == l;
    r := Ok(l);
  }

  method TakeMap(kind: Values, buf: Cursor) returns (r: Result<map<bytes, bytes>, LowLevelError>)
    modifies buf
    ensures match ReadMap(kind, old(buf.rest))
            case Err(e) => r == Err(e)
            case Ok(x) => r == Ok(x.value) && buf.rest == x.rest
  {
    hide ReadString, ReadShort, ReadValue;
    ghost var all := ReadMap(kind, buf.rest);
    var n :- Advance(buf, ReadShort(buf.rest));
    var m := map[];
    for i := 0 to n
      invariant ReadPairs(kind, n - i, m, buf.rest) == all
    {
      var key :- Advance(buf, ReadString(buf.rest));
      var value :- Advance(buf, ReadValue(kind, buf.rest));
      m := m[key := value];
    }
    r := Ok(m);
  }

  method PutStringList(l: seq<bytes>, buf: Buffer) returns (r: Result<(), LowLevelError>)
    modifies buf
    ensures match WriteStringList(l)
            case Err(e) => r == Err(e)
            case Ok(bs) => r.Ok? && buf.data == old(buf.data) + bs
  {
    hide WriteString, WriteShortLength;
    var n := WriteShortLength(|l|);
    if n.Err? {
      return Err(n.error);
    }
    buf.PutSlice(n.value);
    ghost var start := buf.data;
    assert l[0..] == l;
    for i := 0 to |l|
      invariant start <= buf.data
      invariant match WriteStrings(l[i..])
                case Err(e) => WriteStrings(l) == Err(e)
                case Ok(bs) => WriteStrings(l).Ok? && start + WriteStrings(l).value == buf.data + bs
    {
      assert l[i..][1..] == l[i + 1..];
      var s := WriteString(l[i]);
      if s.Err? {
        return Err(s.error);
      }
      ghost var before := buf.data;
      buf.PutSlice(s.value);
      assert forall bs: bytes :: before + (s.value + bs) == buf.data + bs;
    }
    assert l[|l|..] == [] && buf.data + [] == buf.data;
    r := Ok(());
  }

  predicate Writable(kind: Values, p: Pair) {
    WritePair(kind, p).Ok?
  }

  lemma {:induction false} WritePairsAppend(kind: Values, ps: seq<Pair>, p: Pair)
    requires WritePairs(kind, ps).Ok? && WritePair(kind, p).Ok?
    ensures WritePairs(kind, ps + [p]) == Ok(WritePairs(kind, ps).value + WritePair(kind, p).value)
  {
    hide WritePair;
    var last := WritePair(kind, p).value;
    if ps == [] {
      assert ps + [p] == [p] && [p][1..] == [];
      assert last + [] == [] + last;
    } else {
      WritePairsAppend(kind, ps[1..], p);
      assert (ps + [p])[1..] == ps[1..] + [p];
      var head, tail := WritePair(kind, ps[0]).value, WritePairs(kind, ps[1..]).value;
      assert head + (tail + last) == head + tail + last;
    }
  }

  /** `order` lists the entries of `m` but those of `keys`. */
  ghost predicate Visited(kind: Values, order: seq<Pair>, m: map<bytes, bytes>, keys: set<bytes>) {
    && keys <= m.Keys && |order| + |keys| == |m|
    && (forall i :: 0 <= i < |order| ==>
          && order[i].key in m && m[order[i].key] == order[i].value
          && order[i].key !in keys && Writable(kind, order[i]))
    && (forall k :: k in m && k !in keys ==> exists i :: 0 <= i < |order| && order[i].key == k)
    && (forall i, j :: 0 <= i < j < |order| ==> order[i].key != order[j].key)
  }

  lemma VisitStep(kind: Values, order: seq<Pair>, m: map<bytes, bytes>, keys: set<bytes>, key: bytes)
    requires Visited(kind, order, m, keys) && key in keys && Writable(kind, Pair(key, m[key]))
    ensures Visited(kind, order + [Pair(key, m[key])], m, keys - {key})
  {
    hide Writable;
    var order' := order + [Pair(key, m[key])];
    assert order'[|order|].key == key;
    forall k | k in m && k !in keys - {key}
      ensures exists i :: 0 <= i < |order'| && order'[i].key == k
    {
      if k != key {
        var i :| 0 <= i < |order| && order[i].key == k;
        assert order'[i].key == k;
      }
    }
  }

  lemma VisitDone(kind: Values, order: seq<Pair>, m: map<bytes, bytes>)
    requires Visited(kind, order, m, {})
    ensures Lists(order, m) && |order| == |m| && forall k :: k in m ==> Writable(kind, Pair(k, m[k]))
  {
    hide Writable;
    forall k | k in m
      ensures Writable(kind, Pair(k, m[k]))
    {
      var i :| 0 <= i < |order| && order[i].key == k;
      assert order[i] == Pair(k, m[k]);
    }
  }

  /** Writes the entries in whatever order they are found; fails only for what does not fit. */
  method PutMap(kind: Values, m: map<bytes, bytes>, buf: Buffer)
    returns (r: Result<(), LowLevelError>, ghost order: seq<Pair>)
    modifies buf
    ensures r.Ok? <==> |m| <= U16_MAX && forall k :: k in m ==> Writable(kind, Pair(k, m[k]))
    ensures r.Ok? ==> Lists(order, m) && WriteMap(kind, order).Ok?
    ensures r.Ok? ==> buf.data == old(buf.data) + WriteMap(kind, order).value
  {
    hide WritePair, WritePairs, Visited, Lists;
    order := [];
    if |m| > U16_MAX {
      return Err(TryFromIntError), order;
    }
    buf.PutSlice(WriteShortLength(|m|).value);
    ghost var start := buf.data;
    var keys := m.Keys;
    VisitStart(kind, m);
    while keys != {}
      invariant keys <= m.Keys && Visited(kind, order, m, keys)
      invariant WritePairs(kind, order).Ok? && buf.data == start + WritePairs(kind, order).value
      decreases |keys|
    {
      var key :| key in keys;
      var pair := WritePair(kind, Pair(key, m[key]));
      if pair.Err? {
        assert !Writable(kind, Pair(key, m[key]));
        return Err(pair.error), order;
      }
      VisitStep(kind, order, m, keys, key);
      WritePairsAppend(kind, order, Pair(key, m[key]));
      buf.PutSlice(pair.value);
      order, keys := order + [Pair(key, m[key])], keys - {key};
    }
    VisitDone(kind, order, m);
    r := Ok(());
  }

  lemma VisitStart(kind: Values, m: map<bytes, bytes>)
    ensures Visited(kind, [], m, m.Keys)
    ensures WritePairs(kind, []) == Ok([])
  {
    hide Writable;
    assert |m.Keys| == |m|;
  }

  // ------------------------------------------------------ response extensions

  datatype Extensions = Extensions(
    traceId: Option<Octets16>,
    warnings: seq<bytes>,
    customPayload: Option<map<bytes, bytes>>,
    body: bytes)

  datatype ExtensionsError =
    | Decompression(frame: FrameError)
    | TraceIdParse(cause: LowLevelError)
    | WarningsListParse(cause: LowLevelError)
    | CustomPayloadMapParse(cause: LowLevelError)

  function TraceStage(flags: byte, buf: bytes): (r: Result<Read<Option<Octets16>>, ExtensionsError>) {
    if !HasFlag(flags, TRACING) then Ok(Read(None, buf))
    else
      match ReadUuid(buf)
      case Err(e) => Err(TraceIdParse(e))
      case Ok(x) => Ok(Read(Some(x.value), x.rest))
  }

  function WarningStage(flags: byte, buf: bytes): (r: Result<Read<seq<bytes>>, ExtensionsError>) {
    if !HasFlag(flags, WARNING) then Ok(Read([], buf))
    else
      match ReadStringList(buf)
      case Err(e) => Err(WarningsListParse(e))
      case Ok(x) => Ok(x)
  }

  function PayloadStage(flags: byte, buf: bytes): (r: Result<Read<Option<map<bytes, bytes>>>, ExtensionsError>) {
    if !HasFlag(flags, CUSTOM_PAYLOAD) then Ok(Read(None, buf))
    else
      match ReadMap(Blobs, buf)
      case Err(e) => Err(CustomPayloadMapParse(e))
      case Ok(x) => Ok(Read(Some(x.value), x.rest))
  }

  function ParseExtensions(lib: Library, flags: byte, compression: Option<Compression>, body: bytes)
    : (r: Result<Extensions, ExtensionsError>)
  {
    match MaybeDecompress(lib, Some(compression), flags, body)
    case Err(e) => Err(Decompression(e))
    case Ok(plain) =>
      var trace :- TraceStage(flags, plain);
      var warnings :- WarningStage(flags, trace.rest);
      var payload :- PayloadStage(flags, warnings.rest);
      Ok(Extensions(trace.value, warnings.value, payload.value, payload.rest))
  }

  /** What precedes the body, with the payload in the order `ps`. */
  datatype Parts = Parts(traceId: Option<Octets16>, warnings: Option<seq<bytes>>, payload: Option<seq<Pair>>)

  predicate FlagsMatch(flags: byte, p: Parts) {
    && (HasFlag(flags, TRACING) <==> p.traceId.Some?)
    && (HasFlag(flags, WARNING) <==> p.warnings.Some?)
    && (HasFlag(flags, CUSTOM_PAYLOAD) <==> p.payload.Some?)
  }

  function WriteParts(p: Parts, body: bytes): (r: Result<bytes, LowLevelError>) {
    var warnings :- if p.warnings.Some? then WriteStringList(p.warnings.value) else Ok([]);
    var payload :- if p.payload.Some? then WriteMap(Blobs, p.payload.value) else Ok([]);
    Ok((if p.traceId.Some? then p.traceId.value else []) + (warnings + (payload + body)))
  }

  ghost predicate PartsFor(p: Parts, payload: Option<map<bytes, bytes>>) {
    && (p.warnings.Some? ==> AllUtf8(p.warnings.value))
    && (p.payload.Some? <==> payload.Some?)
    && (p.payload.Some? ==>
          && Lists(p.payload.value, payload.value)
          && forall i :: 0 <= i < |p.payload.value| ==> PairUtf8(Blobs, p.payload.value[i]))
  }

  lemma TraceBack(flags: byte, id: Option<Octets16>, rest: bytes)
    requires HasFlag(flags, TRACING) <==> id.Some?
    ensures TraceStage(flags, (if id.Some? then id.value else []) + rest) == Ok(Read(id, rest))
  {
    if id.None? {
      assert [] + rest == rest;
    }
  }

  lemma WarningsBack(flags: byte, l: Option<seq<bytes>>, rest: bytes)
    requires HasFlag(flags, WARNING) <==> l.Some?
    requires l.Some? ==> WriteStringList(l.value).Ok? && AllUtf8(l.value)
    ensures WarningStage(flags, (if l.Some? then WriteStringList(l.value).value else []) + rest)
            == Ok(Read(if l.Some? then l.value else [], rest))
  {
    hide ReadStringList, WriteStringList, AllUtf8;
    if l.Some? {
      StringListRoundTrip(l.value, rest);
    } else {
      assert [] + rest == rest;
    }
  }

  lemma PayloadBack(flags: byte, ps: Option<seq<Pair>>, m: Option<map<bytes, bytes>>, rest: bytes)
    requires (HasFlag(flags, CUSTOM_PAYLOAD) <==> ps.Some?) && (ps.Some? <==> m.Some?)
    requires ps.Some? ==>
               && WriteMap(Blobs, ps.value).Ok? && Lists(ps.value, m.value)
               && forall i :: 0 <= i < |ps.value| ==> PairUtf8(Blobs, ps.value[i])
    ensures PayloadStage(flags, (if ps.Some? then WriteMap(Blobs, ps.value).value else []) + rest)
            == Ok(Read(m, rest))
  {
    hide ReadMap, WriteMap, PairUtf8, Lists;
    if ps.Some? {
      MapRoundTrip(Blobs, ps.value, m.value, rest);
    } else {
      assert [] + rest == rest;
    }
  }

  /** Whatever precedes the body is parsed back, each stage taking exactly its own bytes. */
  lemma ExtensionsRoundTrip(lib: Library, flags: byte, compression: Option<Compression>, p: Parts,
                            payload: Option<map<bytes, bytes>>, body: bytes)
    requires Invertible(lib) && FlagsMatch(flags, p) && PartsFor(p, payload) && WriteParts(p, body).Ok?
    requires |WriteParts(p, body).value| < TWO32
    requires MaybeCompress(lib, Some(compression), flags, WriteParts(p, body).value).Ok?
    ensures ParseExtensions(lib, flags, compression,
                            MaybeCompress(lib, Some(compression), flags, WriteParts(p, body).value).value)
            == Ok(Extensions(p.traceId, if p.warnings.Some? then p.warnings.value else [], payload, body))
  {
    hide Invertible, MaybeCompress, MaybeDecompress, TraceStage, WarningStage, PayloadStage, WriteMap;
    var payloadBytes := if p.payload.Some? then WriteMap(Blobs, p.payload.value).value else [];
    var warnings := if p.warnings.Some? then WriteStringList(p.warnings.value).value else [];
    MaybeDecompressInverts(lib, Some(compression), flags, WriteParts(p, body).value);
    TraceBack(flags, p.traceId, warnings + (payloadBytes + body));
    WarningsBack(flags, p.warnings, payloadBytes + body);
    PayloadBack(flags, p.payload, payload, body);
  }

  /** `parse_response_body_extensions`, which moves the start of the body step by step. */
  method ParseResponseBody(lib: Library, flags: byte, compression: Option<Compression>, raw: bytes)
    returns (r: Result<Extensions, ExtensionsError>)
    ensures r == ParseExtensions(lib, flags, compression, raw)
  {
    hide MaybeDecompress, ReadStringList, ReadMap;
    var plain := MaybeDecompress(lib, Some(compression), flags, raw);
    if plain.Err? {
      return Err(Decompression(plain.error));
    }
    var body := new Cursor(plain.value);
    var traceId: Option<Octets16> := None;
    if HasFlag(flags, TRACING) {
      var id := Advance(body, ReadUuid(body.rest));
      if id.Err? {
        return Err(TraceIdParse(id.error));
      }
      traceId := Some(id.value);
    }
    var warnings := [];
    if HasFlag(flags, WARNING) {
      var l := TakeStringList(body);
      if l.Err? {
        return Err(WarningsListParse(l.error));
      }
      warnings := l.value;
    }
    var payload := None;
    if HasFlag(flags, CUSTOM_PAYLOAD) {
      var m := TakeMap(Blobs, body);
      if m.Err? {
        return Err(CustomPayloadMapParse(m.error));
      }
      payload := Some(m.value);
    }
    r := Ok(Extensions(traceId, warnings, payload, body.rest));
  }
}
