/**
  What a STARTUP negotiates, for all options, and what that means for the bytes of a
  connection. Models `set_from_startup` of scylla-proxy/src/proxy.rs and the names
  of the compressions in scylla-cql/src/frame/mod.rs.
 */
module ProxyStartup {
  import opened Wire
  import opened Opcodes
  import opened Frames
  import opened Extensions
  import opened Proxy
  import opened ProxySafety
  import opened ProxyRuns
  import opened PassThrough
  import opened WireFormat

  /**
    Options written in any order negotiate the compression that "COMPRESSION" is mapped to, if it is "lz4"
    or "snappy", and otherwise none.
   */
  lemma NegotiatesExactlyWhen(options: map<bytes, bytes>, order: seq<Pair>, rest: bytes)
    requires WriteMap(Strings, order).Ok? && Lists(order, options)
    requires forall i :: 0 <= i < |order| ==> PairUtf8(Strings, order[i])
    ensures var key: bytes := [67, 79, 77, 80, 82, 69, 83, 83, 73, 79, 78];
            var lz4: bytes, snappy: bytes := [108, 122, 52], [115, 110, 97, 112, 112, 121];
            var cell := StartupOptions(WriteMap(Strings, order).value + rest);
            && cell.Some?
            && (cell.value == Some(Lz4) <==> key in options && options[key] == lz4)
            && (cell.value == Some(Snappy) <==> key in options && options[key] == snappy)
            && (cell.value == None <==> key !in options || (options[key] != lz4 && options[key] != snappy))
  {
    hide ReadMap, WriteMap, Lists, PairUtf8;
    MapRoundTrip(Strings, order, options, rest);
    assert LZ4_NAME[0] == 108 && SNAPPY_NAME[0] == 115;
  }

  /** A body that is no map of strings negotiates nothing and leaves the cell unset. */
  lemma UnreadableStartup(f: Frame)
    ensures StartupCell(f).None? <==> f.opcode != Request(Startup) || ReadMap(Strings, f.body).Err?
  {
  }

  /** The empty map, and the one option that asks for LZ4, byte by byte. */
  lemma StartupBytes()
    ensures StartupOptions([0, 0]) == Some(None)
    ensures StartupOptions([0, 1, 0, 11, 67, 79, 77, 80, 82, 69, 83, 83, 73, 79, 78, 0, 3, 108, 122, 52])
            == Some(Some(Lz4))
    ensures StartupOptions([0]) == None
  {
    EmptyMap();
    OneOption();
    assert ReadShort([0]).Err?;
  }

  lemma EmptyMap()
    ensures ReadMap(Strings, [0, 0]) == Ok(Read(map[], []))
  {
    var buf: bytes := [0, 0];
    TwoBytes(buf);
    assert buf[..2] == buf && buf[2..] == [];
  }

  lemma {:induction false} AsciiIsUtf8(s: bytes, i: nat)
    requires i <= |s| && forall j :: 0 <= j < |s| ==> s[j] < 0x80
    ensures Utf8From(s, i)
    decreases |s| - i
  {
    if i < |s| {
      AsciiIsUtf8(s, i + 1);
    }
  }

  lemma OnePair(key: bytes, name: bytes)
    requires |key| < 256 && |name| < 256 && Utf8Valid(key) && Utf8Valid(name)
    ensures ReadMap(Strings, [0, 1] + ([0, |key|] + key + ([0, |name|] + name + [])))
            == Ok(Read(map[key := name], []))
  {
    hide Utf8Valid, ReadString;
    var rest := [0, |name|] + name + [];
    var body := [0, |key|] + key + rest;
    var buf := [0, 1] + body;
    StringAt(|key|, key, rest);
    StringAt(|name|, name, []);
    TwoBytes([0, 1]);
    assert buf[..2] == [0, 1] && buf[2..] == body;
    var m := map[key := name];
    assert ReadPairs(Strings, 0, m, []) == Ok(Read(m, []));
    assert ReadPairs(Strings, 1, map[], body) == Ok(Read(m, []));
  }

  lemma OneOption()
    ensures StartupOptions([0, 1, 0, 11, 67, 79, 77, 80, 82, 69, 83, 83, 73, 79, 78, 0, 3, 108, 122, 52])
            == Some(Some(Lz4))
  {
    hide Utf8Valid, ReadMap;
    var key: bytes, name: bytes := [67, 79, 77, 80, 82, 69, 83, 83, 73, 79, 78], [108, 122, 52];
    Utf8Names(key, name);
    OnePair(key, name);
    OptionBytes(key, name);
  }

  lemma OptionBytes(key: bytes, name: bytes)
    requires key == [67, 79, 77, 80, 82, 69, 83, 83, 73, 79, 78] && name == [108, 122, 52]
    ensures [0, 1] + ([0, 11] + key + ([0, 3] + name + []))
            == [0, 1, 0, 11, 67, 79, 77, 80, 82, 69, 83, 83, 73, 79, 78, 0, 3, 108, 122, 52]
  {
    assert [0, 3] + name + [] == [0, 3, 108, 122, 52];
    assert [0, 11] + key == [0, 11, 67, 79, 77, 80, 82, 69, 83, 83, 73, 79, 78];
  }

  lemma Utf8Names(key: bytes, name: bytes)
    requires forall j :: 0 <= j < |key| ==> key[j] < 0x80
    requires forall j :: 0 <= j < |name| ==> name[j] < 0x80
    ensures Utf8Valid(key) && Utf8Valid(name)
  {
    AsciiIsUtf8(key, 0);
    AsciiIsUtf8(name, 0);
  }

  // ------------------------------------------------------------------ connections

  lemma {:induction false} FirstStartupIs(fs: seq<Frame>, j: nat)
    requires forall k :: 0 <= k < j && k < |fs| ==> fs[k].opcode != Request(Startup)
    ensures j < |fs| && StartupCell(fs[j]).Some? ==> FirstStartup(fs) == StartupCell(fs[j])
    ensures j >= |fs| ==> FirstStartup(fs) == None
    decreases |fs|
  {
    hide StartupOptions;
    if fs != [] {
      FirstStartupIs(fs[..|fs| - 1], j);
    }
  }

  /**
    A connection whose first STARTUP asks for no known compression is passed through byte by byte by a node
    without rules, whether the STARTUP was taken already or not.
   */
  lemma PlainStartupPassesThrough(s: State, c: nat, j: nat, options: map<bytes, bytes>, order: seq<Pair>, rest: bytes)
    requires ReachableWithoutRules(s) && c < |s.conns| && j < |s.conns[c].requests.received|
    requires forall k :: 0 <= k < j ==> s.conns[c].requests.received[k].opcode != Request(Startup)
    requires s.conns[c].requests.received[j].opcode == Request(Startup)
    requires WriteMap(Strings, order).Ok? && Lists(order, options)
    requires forall i :: 0 <= i < |order| ==> PairUtf8(Strings, order[i])
    requires s.conns[c].requests.received[j].body == WriteMap(Strings, order).value + rest
    requires var key: bytes := [67, 79, 77, 80, 82, 69, 83, 83, 73, 79, 78];
             key in options ==> options[key] != [108, 122, 52] && options[key] != [115, 110, 97, 112, 112, 121]
    ensures s.conns[c].clusterOut.written <= s.conns[c].driverIn.stream
    ensures s.conns[c].driverOut.written <= s.conns[c].clusterIn.stream
  {
    hide ReachableWithoutRules, StartupOptions, WriteMap, Lists, PairUtf8, FirstStartup, Inv;
    NegotiatesExactlyWhen(options, order, rest);
    WithoutRulesReachable(s);
    ReachableInv(s);
    var conn := s.conns[c];
    CellIsFirst(s, c);
    var taken := TakenRequests(conn);
    assert forall k :: 0 <= k < |taken| ==> taken[k] == conn.requests.received[k];
    FirstStartupIs(taken, j);
    BytesPassThrough(s, c);
  }

  lemma CellIsFirst(s: State, c: nat)
    requires Inv(s) && c < |s.conns|
    ensures s.conns[c].cell == FirstStartup(TakenRequests(s.conns[c]))
  {
    hide LanesOk, FirstStartup;
    assert FlagsOk(s.conns[c]);
  }

  lemma WithoutRulesReachable(s: State)
    requires ReachableWithoutRules(s)
    ensures Reachable(s)
  {
    hide Runs;
  }
}
