/**
  The workers of a connection in their own form: one pass of the main loops of
  `request_processor` and `response_processor`, of the receivers and of the senders,
  and the write-once cell whose handles they share. Models
  scylla-proxy/src/proxy.rs:898-1457. A pass of a processor that no other worker
  interrupts is three steps of the step system.
 */
module ProxyWorkers {
  import opened Wire
  import opened Cells
  import opened Opcodes
  import opened Frames
  import opened Extensions
  import opened Conditions
  import opened Rules
  import opened Proxy

  // ----------------------------------------------------------------- the cell

  /** `OnceLock<Option<Compression>>`. */
  class CompressionCell {
    var cell: Cell

    constructor ()
      ensures cell == None
    {
      cell := None;
    }
  }

  datatype CompressionWriter = CompressionWriter(info: CompressionCell) {
    method Set(c: Option<Compression>) returns (ok: bool)
      modifies info
      ensures ok == old(info.cell).None?
      ensures info.cell == if ok then Some(c) else old(info.cell)
    {
      ok := info.cell.None?;
      if ok {
        info.cell := Some(c);
      }
    }

    /** A STARTUP that cannot be parsed changes nothing, and neither does one after the first. */
    method SetFromStartup(body: bytes) returns (r: Result<Option<Compression>, LowLevelError>)
      modifies info
      ensures r.Ok? <==> StartupOptions(body).Some?
      ensures r.Ok? ==> Some(r.value) == StartupOptions(body)
      ensures info.cell == if old(info.cell).Some? then old(info.cell) else StartupOptions(body)
    {
      var cursor := new Cursor(body);
      var options :- TakeMap(Strings, cursor);
      var chosen := Chosen(options);
      var ok := Set(chosen);
      r := Ok(chosen);
    }
  }

  datatype CompressionReader = CompressionReader(info: CompressionCell) {
    function Get(): (cell: Cell)
      reads info
    {
      info.cell
    }
  }

  /** One writer and four readers of the same new cell. */
  method MakeCompressionInfra()
    returns (w: CompressionWriter, fromDriver: CompressionReader, fromCluster: CompressionReader,
             toDriver: CompressionReader, toCluster: CompressionReader)
    ensures fresh(w.info) && w.info.cell == None
    ensures fromDriver.info == fromCluster.info == toDriver.info == toCluster.info == w.info
  {
    var info := new CompressionCell();
    w := CompressionWriter(info);
    fromDriver, fromCluster := CompressionReader(info), CompressionReader(info);
    toDriver, toCluster := CompressionReader(info), CompressionReader(info);
  }

  // -------------------------------------------------------------- a connection

  class Connection {
    var requests: Lane
    var responses: Lane
    var toCluster: seq<Out>
    var toDriver: seq<Out>
    var hasEvents: bool
    var driverIn: Source
    var clusterIn: Source
    var clusterOut: Sink
    var driverOut: Sink
    const compression: CompressionWriter
    const fromDriverReader: CompressionReader
    const fromClusterReader: CompressionReader
    const toDriverReader: CompressionReader
    const toClusterReader: CompressionReader

    /** The handles are to the same cell. */
    predicate Valid() {
      fromDriverReader.info == fromClusterReader.info == toDriverReader.info == toClusterReader.info
        == compression.info
    }

    function View(): (c: Conn)
      reads this, compression.info
    {
      Conn(requests, responses, toCluster, toDriver, hasEvents, compression.info.cell,
           driverIn, clusterIn, clusterOut, driverOut)
    }

    /** `spawn_workers` for a new connection. */
    constructor ()
      ensures Valid() && View() == NEW_CONN && fresh(compression.info)
    {
      var w, r1, r2, r3, r4 := MakeCompressionInfra();
      requests, responses := NEW_LANE, NEW_LANE;
      toCluster, toDriver := [], [];
      hasEvents := false;
      driverIn, clusterIn, clusterOut, driverOut := NEW_SOURCE, NEW_SOURCE, NEW_SINK, NEW_SINK;
      compression := w;
      fromDriverReader, fromClusterReader, toDriverReader, toClusterReader := r1, r2, r3, r4;
    }

    // ---------------------------------------------------- receivers and senders

    /** Reads with the receiver's own handle; a panic of the decompression stops it like an error. */
    method ReceiveFrame(lib: Library, d: Direction)
      requires Valid() && CanReceive(lib, View(), d)
      modifies this
      ensures View() == ReceiveOn(lib, old(View()), d)
    {
      hide ParseFrame;
      var source := if d.FromDriver? then driverIn else clusterIn;
      NotEmpty(lib, View(), d);
      var reader := new ChunkReader([source.unread]);
      WholeChunk(source.unread);
      var handle := if d.FromDriver? then fromDriverReader else fromClusterReader;
      var cell := handle.Get();
      var r := ReadFrame(reader, lib, d, cell);
      if r.Err? {
        SetSource(d, source.(open := false));
        return;
      }
      var rest := Concat(reader.chunks);
      var lane := if d.FromDriver? then requests else responses;
      SetSource(d, source.(unread := rest, open := !lane.phase.Dead?));
      lane := lane.(received := lane.received + [r.value], queue := lane.queue + [Msg(|lane.received|, r.value)]);
      if d.FromDriver? {
        requests := lane;
      } else {
        responses := lane;
      }
    }

    method SetSource(d: Direction, source: Source)
      modifies this
      ensures View() == WithSource(old(View()), d, source)
    {
      if d.FromDriver? {
        driverIn := source;
      } else {
        clusterIn := source;
      }
    }

    /** Writes with the sender's own handle. */
    method TransmitFrame(lib: Library, d: Direction)
      requires Valid() && CanTransmit(View(), d)
      modifies this
      ensures View() == TransmitOn(lib, old(View()), d)
    {
      hide WriteFrame;
      var sink := if d.FromDriver? then clusterOut else driverOut;
      var frame := (if d.FromDriver? then toCluster else toDriver)[sink.sent].frame;
      var handle := if d.FromDriver? then toClusterReader else toDriverReader;
      var cell := handle.Get();
      var buffer := new Buffer();
      var r := SendFrame(buffer, lib, cell, frame);
      sink := if r.Ok? then Sink(sink.sent + 1, sink.written + buffer.data, sink.open) else sink.(open := false);
      if d.FromDriver? {
        clusterOut := sink;
      } else {
        driverOut := sink;
      }
    }

    // --------------------------------------------------------------- processors

    /** Raises the event flag or sets the cell, and loads the flag. */
    method TakeRequest() returns (m: Msg)
      requires requests.phase.Idle? && requests.queue != []
      modifies this, compression.info
      ensures View() == LoadOn(TakeOn(old(View()), FromDriver), FromDriver)
      ensures requests.phase == Loaded(m, hasEvents)
    {
      hide StartupOptions;
      m := requests.queue[0];
      requests := requests.(queue := requests.queue[1..], phase := Stored(m));
      if m.frame.opcode == Request(Register) {
        hasEvents := true;
      } else if m.frame.opcode == Request(Startup) {
        var negotiated := compression.SetFromStartup(m.frame.body);
      }
      requests := requests.(phase := Loaded(m, hasEvents));
    }

    /** Takes a request, stores what it says, looks for a rule and forwards the request or spawns a task. */
    method ProcessRequest(no: nat, rules: RuleList, toss: nat -> bool) returns (alive: bool)
      requires requests.phase.Idle? && requests.queue != []
      modifies this, compression.info, rules
      ensures var loaded := LoadOn(TakeOn(old(View()), FromDriver), FromDriver);
              var ctx := LoadedContext(loaded.requests.phase, no, toss);
              var found := Locked(old(rules.View()), ctx).found;
              && rules.View() == AfterLock(old(rules.View()), ctx) && alive == !found.Panicked?
              && View() == if alive then ApplyOn(loaded, FromDriver, ReactionOf(old(rules.rules), found))
                           else CrashOn(loaded, FromDriver)
    {
      hide Locked, TakeOn, LoadOn;
      var m := TakeRequest();
      var ctx := EvaluationContext(no, hasEvents, m.frame.opcode, m.frame.body, toss);
      LockKeeps(rules.View(), ctx);
      var found := rules.FindRule(ctx);
      alive := !found.Panicked?;
      if found.Panicked? {
        requests := requests.(phase := Dead(m));
      } else if found.Matched? {
        var r := rules.rules[found.index].reaction;
        var task := Task(m.frame, r, r.toAddressee.Some?, r.toSender.Some?);
        requests := requests.(phase := Idle, fates := requests.fates + [Consumed(r)],
                              tasks := requests.tasks[m.id := task]);
      } else {
        requests := requests.(phase := Idle, fates := requests.fates + [Forwarded]);
        toCluster := toCluster + [Out(FromDriver, Default, m.id, m.frame)];
      }
    }

    /** The same for a response, which stores nothing. */
    method ProcessResponse(no: nat, rules: RuleList, toss: nat -> bool) returns (alive: bool)
      requires responses.phase.Idle? && responses.queue != []
      modifies this, rules
      ensures var loaded := LoadOn(TakeOn(old(View()), FromCluster), FromCluster);
              var ctx := LoadedContext(loaded.responses.phase, no, toss);
              var found := Locked(old(rules.View()), ctx).found;
              && rules.View() == AfterLock(old(rules.View()), ctx) && alive == !found.Panicked?
              && View() == if alive then ApplyOn(loaded, FromCluster, ReactionOf(old(rules.rules), found))
                           else CrashOn(loaded, FromCluster)
    {
      hide Locked;
      var m := responses.queue[0];
      responses := responses.(queue := responses.queue[1..], phase := Loaded(m, hasEvents));
      var ctx := EvaluationContext(no, hasEvents, m.frame.opcode, m.frame.body, toss);
      LockKeeps(rules.View(), ctx);
      var found := rules.FindRule(ctx);
      alive := !found.Panicked?;
      if found.Panicked? {
        responses := responses.(phase := Dead(m));
      } else if found.Matched? {
        var r := rules.rules[found.index].reaction;
        var task := Task(m.frame, r, r.toAddressee.Some?, r.toSender.Some?);
        responses := responses.(phase := Idle, fates := responses.fates + [Consumed(r)],
                                tasks := responses.tasks[m.id := task]);
      } else {
        responses := responses.(phase := Idle, fates := responses.fates + [Forwarded]);
        toDriver := toDriver + [Out(FromCluster, Default, m.id, m.frame)];
      }
    }
  }

  /** A scan changes no reaction. */
  lemma LockKeeps(g: RuleGuard, ctx: EvaluationContext)
    ensures var r := Locked(g, ctx);
            r.found.Matched? ==> r.rules[r.found.index].reaction == g.rules[r.found.index].reaction
  {
    hide Scan;
    ScanKeeps(g.rules, ctx);
  }

  lemma NotEmpty(lib: Library, c: Conn, d: Direction)
    requires CanReceive(lib, c, d)
    ensures SourceOf(c, d).unread != []
  {
  }

  lemma WholeChunk(bs: bytes)
    ensures Concat([bs]) == bs
  {
  }

  /** A pass is the steps that take and load, and the one that applies a rule or crashes. */
  lemma PassIsThreeSteps(s: State, c: nat, d: Direction, toss: nat -> bool)
    requires Enabled(s, Take(c, d))
    ensures Enabled(Do(s, Take(c, d)), Load(c, d))
    ensures var s2 := Do(Do(s, Take(c, d)), Load(c, d));
            var loaded := LoadOn(TakeOn(s.conns[c], d), d);
            var ctx := LoadedContext(LaneOf(loaded, d).phase, c, toss);
            var found := Locked(RulesOf(s, d), ctx).found;
            var last := if found.Panicked? then Crash(c, d, toss) else Apply(c, d, toss);
            && Enabled(s2, last) && RulesOf(Do(s2, last), d) == AfterLock(RulesOf(s, d), ctx)
            && Do(s2, last).conns
               == s.conns[c := if found.Panicked? then CrashOn(loaded, d)
                               else ApplyOn(loaded, d, ReactionOf(RulesOf(s, d).rules, found))]
  {
    hide Locked, StartupOptions;
    var s2 := Do(Do(s, Take(c, d)), Load(c, d));
    assert s2.conns[c] == LoadOn(TakeOn(s.conns[c], d), d) && RulesOf(s2, d) == RulesOf(s, d);
  }
}
