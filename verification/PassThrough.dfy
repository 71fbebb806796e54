/**
  A proxy without rules: what it writes towards one end is what the other end wrote,
  frame by frame, and byte by byte where no compression was negotiated. Models
  scylla-proxy/src/proxy.rs with `turn_off_rules`.
 */
module PassThrough {
  import opened Wire
  import opened Frames
  import opened FrameStreams
  import opened Rules
  import opened Proxy
  import opened ProxySafety
  import opened ProxyWire
  import opened ProxyRuns

  /** Every frame was sent on by default, in its place, and nothing else was sent that way. */
  ghost predicate AllForwarded(l: Lane, outs: seq<Out>, d: Direction) {
    && !l.phase.Dead? && l.tasks == map[] && |outs| == |l.fates| <= |l.received|
    && forall i :: 0 <= i < |outs| ==> l.fates[i].Forwarded? && outs[i] == Out(d, Default, i, l.received[i])
  }

  ghost predicate Transparent(c: Conn) {
    AllForwarded(c.requests, c.toCluster, FromDriver) && AllForwarded(c.responses, c.toDriver, FromCluster)
  }

  ghost predicate NoRules(s: State) {
    s.requestRules == s.responseRules == RuleGuard([], false)
  }

  ghost predicate TransparentInv(s: State) {
    NoRules(s) && forall c :: 0 <= c < |s.conns| ==> Transparent(s.conns[c])
  }

  lemma LaneForwarded(c: Conn, d: Direction)
    requires Transparent(c)
    ensures AllForwarded(LaneOf(c, d), Channel(c, d, true), d)
  {
    hide AllForwarded;
  }

  /** The lane may have received, taken or loaded a frame, but decided about none. */
  ghost predicate Undecided(l: Lane, l': Lane) {
    && l.received <= l'.received && l.fates == l'.fates && l.tasks == l'.tasks
    && (l'.phase.Dead? ==> l.phase.Dead?)
  }

  ghost predicate UndecidedConn(c: Conn, c': Conn) {
    && c.toCluster == c'.toCluster && c.toDriver == c'.toDriver
    && Undecided(c.requests, c'.requests) && Undecided(c.responses, c'.responses)
  }

  lemma StaysTransparent(c: Conn, c': Conn)
    requires Transparent(c) && UndecidedConn(c, c')
    ensures Transparent(c')
  {
  }

  lemma ReceiveUndecided(lib: Library, c: Conn, d: Direction)
    ensures UndecidedConn(c, ReceiveOn(lib, c, d))
  {
    hide ParseFrame;
  }

  lemma TakeUndecided(c: Conn, d: Direction)
    requires LaneOf(c, d).queue != []
    ensures UndecidedConn(c, TakeOn(c, d))
  {
    hide StartupCell, IsRegister;
  }

  lemma LoadUndecided(c: Conn, d: Direction)
    requires LaneOf(c, d).phase.Stored?
    ensures UndecidedConn(c, LoadOn(c, d))
  {
  }

  lemma SocketsUndecided(lib: Library, c: Conn, d: Direction, bs: bytes)
    ensures UndecidedConn(c, ArriveOn(c, d, bs))
    ensures CanTransmit(c, d) ==> UndecidedConn(c, TransmitOn(lib, c, d))
  {
    hide WriteFrame;
  }

  predicate Decides(step: Step) {
    Scans(step) || step.RunPass? || step.RunForge?
  }

  lemma UndecidedStep(s: State, step: Step)
    requires !step.Open? && !step.Replace? && step.c < |s.conns| && EnabledOn(s, step) && !Decides(step)
    ensures UndecidedConn(s.conns[step.c], StepOn(s, step))
  {
    hide UndecidedConn, ReceiveOn, CanReceive, TakeOn, LoadOn, ArriveOn, TransmitOn;
    var c, d := s.conns[step.c], step.d;
    if step.Receive? {
      ReceiveUndecided(s.lib, c, d);
    } else if step.Take? {
      TakeUndecided(c, d);
    } else if step.Load? {
      LoadUndecided(c, d);
    } else {
      SocketsUndecided(s.lib, c, d, if step.Arrive? then step.bs else []);
    }
  }

  lemma ForwardsNext(l: Lane, outs: seq<Out>, d: Direction)
    requires AllForwarded(l, outs, d) && InOrder(l) && l.phase.Loaded?
    ensures AllForwarded(l.(phase := Idle, fates := l.fates + [Forwarded]),
                         outs + [Out(d, Default, l.phase.msg.id, l.phase.msg.frame)], d)
  {
  }

  lemma ScanNothing(s: State, c: nat, d: Direction, toss: nat -> bool)
    requires NoRules(s) && c < |s.conns| && LaneOf(s.conns[c], d).phase.Loaded?
    ensures ScanFor(s, c, d, toss) == Scanned([], Unmatched)
  {
  }

  lemma ForwardsOn(c: Conn, d: Direction)
    requires Transparent(c) && LanesOk(c) && LaneOf(c, d).phase.Loaded?
    ensures Transparent(ApplyOn(c, d, None))
  {
    hide AllForwarded, LanesOk;
    LaneForwarded(c, d);
    LanesOf(c, d);
    ForwardsNext(LaneOf(c, d), Channel(c, d, true), d);
  }

  lemma TransparentStep(s: State, step: Step)
    requires !step.Open? && !step.Replace? && step.c < |s.conns| && EnabledOn(s, step)
    requires NoRules(s) && Transparent(s.conns[step.c]) && LanesOk(s.conns[step.c])
    ensures Transparent(StepOn(s, step)) && !step.Crash?
  {
    hide Transparent, LanesOk, ScanFor, CanReceive, ApplyOn;
    var c, d := s.conns[step.c], step.d;
    LaneForwarded(c, d);
    NoTasks(LaneOf(c, d), Channel(c, d, true), d);
    if Scans(step) {
      ScanNothing(s, step.c, d, step.toss);
      ForwardsOn(c, d);
    } else if !Decides(step) {
      UndecidedStep(s, step);
      StaysTransparent(c, StepOn(s, step));
    }
  }

  lemma NoTasks(l: Lane, outs: seq<Out>, d: Direction)
    requires AllForwarded(l, outs, d)
    ensures l.tasks == map[] && !l.phase.Dead?
  {
  }

  lemma {:induction false} TransparentRun(s: State, steps: seq<Step>, s': State)
    requires Inv(s) && TransparentInv(s) && Runs(s, steps, s')
    requires forall i :: 0 <= i < |steps| && steps[i].Replace? ==> steps[i].rules == []
    ensures Inv(s') && TransparentInv(s')
    decreases |steps|
  {
    hide LanesOk, FlagsOk, Transparent, Do, EnabledOn, StepOn;
    if steps != [] {
      var step := steps[0];
      StepChanges(s, step);
      StepKeepsInv(s, step);
      NoRulesStep(s, step);
      if step.Open? {
        NewTransparent();
      } else if !step.Replace? {
        TransparentStep(s, step);
      }
      TransparentRun(Do(s, step), steps[1..], s');
    }
  }

  lemma NewTransparent()
    ensures Transparent(NEW_CONN)
  {
  }

  lemma NoRulesStep(s: State, step: Step)
    requires NoRules(s) && Enabled(s, step) && (step.Replace? ==> step.rules == [])
    ensures NoRules(Do(s, step))
  {
    hide Do, CanReceive;
    StepChangesRules(s, step, FromDriver);
    StepChangesRules(s, step, FromCluster);
  }

  /** Some run without rules leads there. */
  ghost predicate ReachableWithoutRules(s: State) {
    exists start: State, steps: seq<Step> ::
      && Start(start) && NoRules(start) && Runs(start, steps, s)
      && forall i :: 0 <= i < |steps| && steps[i].Replace? ==> steps[i].rules == []
  }

  lemma WithoutRules(s: State)
    requires ReachableWithoutRules(s)
    ensures TransparentInv(s) && WireInv(s)
  {
    hide Runs, Transparent, WireOk, LanesOk, FlagsOk;
    var start: State, steps: seq<Step> :|
      && Start(start) && NoRules(start) && Runs(start, steps, s)
      && forall i :: 0 <= i < |steps| && steps[i].Replace? ==> steps[i].rules == [];
    TransparentRun(start, steps, s);
    RunKeepsWire(start, steps, s);
  }

  /** The frames written so far are the first ones received. */
  lemma SentAreReceived(lib: Library, c: Conn, d: Direction)
    requires Transparent(c) && WireOk(lib, c)
    ensures var sent, received := SinkOf(c, d).sent, LaneOf(c, d).received;
            && sent <= |received| && sent <= |Channel(c, d, true)|
            && FramesOf(Channel(c, d, true)[..sent]) == received[..sent]
  {
    hide ParseFrames, WriteFrames;
    LaneForwarded(c, d);
  }

  /** A body that can be packed again within the length field of a header. */
  predicate Repackable(lib: Library, cell: Cell, f: Frame) {
    && |f.body| < TWO32
    && var packed := MaybeCompress(lib, cell, f.params.flags, f.body);
       packed.Ok? ==> |packed.value| < TWO32
  }

  /**
    Without rules the frames that one end parses from what the proxy wrote to it are the first ones that
    the proxy parsed from what the other end wrote.
   */
  lemma FramesPassThrough(s: State, c: nat, d: Direction)
    requires ReachableWithoutRules(s) && c < |s.conns| && Invertible(s.lib)
    requires forall i :: 0 <= i < |LaneOf(s.conns[c], d).received| ==>
               Repackable(s.lib, s.conns[c].cell, LaneOf(s.conns[c], d).received[i])
    ensures var conn := s.conns[c];
            var received, source, sink := LaneOf(conn, d).received, SourceOf(conn, d), SinkOf(conn, d);
            && ParseFrames(s.lib, d, conn.cell, |received|, source.stream) == Ok(ParsedAll(received, source.unread))
            && sink.sent <= |received|
            && ParseFrames(s.lib, d, conn.cell, sink.sent, sink.written) == Ok(ParsedAll(received[..sink.sent], []))
  {
    hide ReachableWithoutRules, Transparent, ParseFrames, WriteFrames, Repackable, Invertible, FramesOf;
    WithoutRules(s);
    var conn := s.conns[c];
    var received, n := LaneOf(conn, d).received, SinkOf(conn, d).sent;
    SentAreReceived(s.lib, conn, d);
    WireMeaning(s.lib, conn, d);
    forall i | 0 <= i < n
      ensures Deliverable(s.lib, d, conn.cell, received[..n][i])
    {
      AllDirected(s.lib, d, conn.cell, |received|, SourceOf(conn, d).stream, i);
      SentIsDeliverable(s.lib, d, conn.cell, received[..n], i);
    }
    FramesRoundTrip(s.lib, d, conn.cell, received[..n], []);
    assert SinkOf(conn, d).written + [] == SinkOf(conn, d).written;
  }

  lemma {:induction false} SentIsDeliverable(lib: Library, d: Direction, cell: Cell, fs: seq<Frame>, i: nat)
    requires WriteFrames(lib, cell, fs).Ok? && i < |fs| && Directed(d, fs[i]) && Repackable(lib, cell, fs[i])
    ensures Deliverable(lib, d, cell, fs[i])
    decreases i
  {
    if i > 0 {
      SentIsDeliverable(lib, d, cell, fs[1..], i - 1);
    }
  }

  /** Without rules no sender stops, unless Snappy refuses to compress. */
  lemma NothingRefused(s: State, c: nat, d: Direction)
    requires ReachableWithoutRules(s) && c < |s.conns| && CanTransmit(s.conns[c], d)
    requires forall b: bytes :: s.lib.snap(b).Some?
    ensures var sink, sink' := SinkOf(s.conns[c], d), SinkOf(TransmitOn(s.lib, s.conns[c], d), d);
            sink'.open && sink'.sent == sink.sent + 1 && sink.written <= sink'.written
  {
    hide ReachableWithoutRules, ParseFrames, WriteFrames, WriteFrame, FramesOf;
    WithoutRules(s);
    var conn := s.conns[c];
    LaneForwarded(conn, d);
    WireMeaning(s.lib, conn, d);
    AllWritable(s.lib, d, conn.cell, |LaneOf(conn, d).received|, SourceOf(conn, d).stream, SinkOf(conn, d).sent);
  }

  /** Without rules and compression the bytes written to one end are the first ones that the other end wrote. */
  lemma BytesPassThrough(s: State, c: nat)
    requires ReachableWithoutRules(s) && c < |s.conns| && Negotiated(s.conns[c].cell).None?
    ensures s.conns[c].clusterOut.written <= s.conns[c].driverIn.stream
    ensures s.conns[c].driverOut.written <= s.conns[c].clusterIn.stream
  {
    hide ReachableWithoutRules, Negotiated;
    BytesPass(s, c, FromDriver);
    BytesPass(s, c, FromCluster);
  }

  lemma BytesPass(s: State, c: nat, d: Direction)
    requires ReachableWithoutRules(s) && c < |s.conns| && Negotiated(s.conns[c].cell).None?
    ensures SinkOf(s.conns[c], d).written <= SourceOf(s.conns[c], d).stream
  {
    hide ReachableWithoutRules, Transparent, ParseFrames, WriteFrames, Negotiated, FramesOf;
    WithoutRules(s);
    var conn := s.conns[c];
    var received, stream, n := LaneOf(conn, d).received, SourceOf(conn, d).stream, SinkOf(conn, d).sent;
    SentAreReceived(s.lib, conn, d);
    WireMeaning(s.lib, conn, d);
    forall i | 0 <= i < |received|
      ensures Uncompressed(received[i])
    {
      NoneCompressed(s.lib, d, conn.cell, |received|, stream, i);
    }
    AllWrittenBack(s.lib, d, conn.cell, |received|, stream);
    WrittenPrefix(s.lib, conn.cell, received, n);
  }
}
