/**
  The sockets of a proxied connection. Receivers and senders read the compression
  cell each time they parse or write a frame, while the request processor sets it
  in between; still all that was ever read and all that was ever written is as
  under the one value that the cell has now.
 */
module ProxyWire {
  import opened Wire
  import opened Frames
  import opened FrameStreams
  import opened Rules
  import opened Proxy
  import opened ProxySafety

  function FramesOf(outs: seq<Out>): (fs: seq<Frame>)
    ensures |fs| == |outs| && forall i :: 0 <= i < |outs| ==> fs[i] == outs[i].frame
  {
    seq(|outs|, i requires 0 <= i < |outs| => outs[i].frame)
  }

  /** Under the present cell the lane's frames are what its bytes parse to, and the unread bytes are left. */
  ghost predicate ReadOk(lib: Library, c: Conn, d: Direction) {
    var l, source := LaneOf(c, d), SourceOf(c, d);
    ParseFrames(lib, d, c.cell, |l.received|, source.stream) == Ok(ParsedAll(l.received, source.unread))
  }

  /** Under the present cell the frames sent so far are written as the bytes written so far. */
  ghost predicate WrittenOk(lib: Library, c: Conn, d: Direction) {
    var outs, sink := Channel(c, d, true), SinkOf(c, d);
    && sink.sent <= |outs|
    && WriteFrames(lib, c.cell, FramesOf(outs[..sink.sent])) == Ok(sink.written)
  }

  ghost predicate WireOk(lib: Library, c: Conn) {
    ReadOk(lib, c, FromDriver) && ReadOk(lib, c, FromCluster)
    && WrittenOk(lib, c, FromDriver) && WrittenOk(lib, c, FromCluster)
  }

  lemma NewWireOk(lib: Library)
    ensures WireOk(lib, NEW_CONN)
  {
    hide ParseFrame, WriteFrame;
    assert FramesOf(NEW_CONN.toCluster[..0]) == [];
  }

  // ---------------------------------------------------------------------- steps

  lemma ArriveKeepsWire(lib: Library, c: Conn, d: Direction, bs: bytes)
    requires WireOk(lib, c)
    ensures WireOk(lib, ArriveOn(c, d, bs))
  {
    hide ParseFrames, WriteFrames, FramesOf;
    MoreBytesFrames(lib, d, c.cell, |LaneOf(c, d).received|, SourceOf(c, d).stream, bs);
  }

  lemma ReceiveKeepsWire(lib: Library, c: Conn, d: Direction)
    requires WireOk(lib, c)
    ensures WireOk(lib, ReceiveOn(lib, c, d))
  {
    hide ParseFrames, ParseFrame, WriteFrames, FramesOf;
    if ParseFrame(lib, d, c.cell, SourceOf(c, d).unread).Ok? {
      OneMoreParsed(lib, d, c.cell, |LaneOf(c, d).received|, SourceOf(c, d).stream);
    }
  }

  /** Taking a STARTUP may set the cell under the receivers and senders. */
  lemma TakeKeepsWire(lib: Library, c: Conn, d: Direction)
    requires WireOk(lib, c) && LaneOf(c, d).queue != []
    ensures WireOk(lib, TakeOn(c, d))
  {
    hide ParseFrames, WriteFrames, FramesOf, StartupCell, IsRegister;
    var cell := TakeOn(c, d).cell;
    if c.cell.None? {
      UnsetCellFrames(lib, FromDriver, cell, |c.requests.received|, c.driverIn.stream);
      UnsetCellFrames(lib, FromCluster, cell, |c.responses.received|, c.clusterIn.stream);
      UnsetCellWrites(lib, cell, FramesOf(c.toCluster[..c.clusterOut.sent]));
      UnsetCellWrites(lib, cell, FramesOf(c.toDriver[..c.driverOut.sent]));
    }
  }

  /** What processors and tasks do after taking a frame leaves the sockets alone. */
  ghost predicate Within(c: Conn, c': Conn) {
    && c.requests.received == c'.requests.received && c.responses.received == c'.responses.received
    && c.cell == c'.cell && c.driverIn == c'.driverIn && c.clusterIn == c'.clusterIn
    && c.clusterOut == c'.clusterOut && c.driverOut == c'.driverOut
    && c.toCluster <= c'.toCluster && c.toDriver <= c'.toDriver
  }

  lemma WithinKeepsWire(lib: Library, c: Conn, c': Conn)
    requires WireOk(lib, c) && Within(c, c')
    ensures WireOk(lib, c')
  {
    hide ParseFrames, WriteFrames, FramesOf;
    assert c.toCluster[..c.clusterOut.sent] == c'.toCluster[..c.clusterOut.sent];
    assert c.toDriver[..c.driverOut.sent] == c'.toDriver[..c.driverOut.sent];
  }

  lemma LaneWithin(c: Conn, d: Direction, l: Lane)
    requires l.received == LaneOf(c, d).received
    ensures Within(c, WithLane(c, d, l))
  {
  }

  lemma SendWithin(c: Conn, d: Direction, l: Lane, toAddressee: bool, o: Out)
    requires l.received == LaneOf(c, d).received
    ensures Within(c, Send(WithLane(c, d, l), toAddressee, o))
  {
  }

  lemma ApplyWithin(c: Conn, d: Direction, applied: Option<Reaction>)
    requires LaneOf(c, d).phase.Loaded?
    ensures Within(c, ApplyOn(c, d, applied))
  {
    hide Within, WithLane, Send;
    var l := LaneOf(c, d);
    var m := l.phase.msg;
    if applied.None? {
      SendWithin(c, d, l.(phase := Idle, fates := l.fates + [Forwarded]), true, Out(d, Default, m.id, m.frame));
    } else {
      var r := applied.value;
      LaneWithin(c, d, l.(phase := Idle, fates := l.fates + [Consumed(r)],
                          tasks := l.tasks[m.id := Task(m.frame, r, r.toAddressee.Some?, r.toSender.Some?)]));
    }
  }

  lemma PassWithin(c: Conn, d: Direction, id: nat)
    requires CanPass(LaneOf(c, d), id)
    ensures Within(c, RunPassOn(c, d, id))
  {
    hide Within, WithLane, Send;
    var l := LaneOf(c, d);
    var t := l.tasks[id];
    SendWithin(c, d, l.(tasks := l.tasks[id := t.(pass := false)]), true,
               Out(d, Pass, id, Processed(t.reaction.toAddressee.value, t.frame)));
  }

  lemma ForgeWithin(c: Conn, d: Direction, id: nat)
    requires CanForge(LaneOf(c, d), id)
    ensures Within(c, RunForgeOn(c, d, id))
  {
    hide Within, WithLane, Send;
    var l := LaneOf(c, d);
    var t := l.tasks[id];
    var a := t.reaction.toSender.value;
    if a.processor.None? {
      LaneWithin(c, d, l.(tasks := l.tasks - {id}));
    } else {
      SendWithin(c, d, l.(tasks := l.tasks[id := t.(forge := false)]), false,
                 Out(d, Forge, id, a.processor.value(t.frame)));
    }
  }

  lemma TransmitKeepsWire(lib: Library, c: Conn, d: Direction)
    requires WireOk(lib, c) && CanTransmit(c, d)
    ensures WireOk(lib, TransmitOn(lib, c, d))
  {
    hide ParseFrames, WriteFrames, WriteFrame;
    var outs, n := Channel(c, d, true), SinkOf(c, d).sent;
    if WriteFrame(lib, c.cell, outs[n].frame).Ok? {
      OneMoreWritten(lib, c.cell, FramesOf(outs[..n]), outs[n].frame);
      assert FramesOf(outs[..n + 1]) == FramesOf(outs[..n]) + [outs[n].frame];
    }
  }

  predicate Inside(step: Step) {
    step.Load? || Scans(step) || step.RunPass? || step.RunForge?
  }

  lemma InsideStep(s: State, step: Step)
    requires !step.Open? && !step.Replace? && step.c < |s.conns| && EnabledOn(s, step) && Inside(step)
    ensures Within(s.conns[step.c], StepOn(s, step))
  {
    hide Within, Locked, WithLane, Send, ApplyOn, RunPassOn, RunForgeOn;
    var c, d := s.conns[step.c], step.d;
    var l := LaneOf(c, d);
    if step.Load? {
      LaneWithin(c, d, l.(phase := Loaded(l.phase.msg, c.hasEvents)));
    } else if step.Crash? {
      LaneWithin(c, d, l.(phase := Dead(l.phase.msg)));
    } else if step.RunPass? {
      PassWithin(c, d, step.id);
    } else if step.RunForge? {
      ForgeWithin(c, d, step.id);
    } else {
      ApplyWithin(c, d, ReactionOf(RulesOf(s, d).rules, ScanFor(s, step.c, d, step.toss).found));
    }
  }

  lemma StepKeepsWire(s: State, step: Step)
    requires !step.Open? && !step.Replace? && step.c < |s.conns| && EnabledOn(s, step)
    requires WireOk(s.lib, s.conns[step.c])
    ensures WireOk(s.lib, StepOn(s, step))
  {
    hide WireOk, ScanFor, ReceiveOn, TakeOn, TransmitOn, ApplyOn, RunPassOn, RunForgeOn, Within;
    var c := s.conns[step.c];
    if Inside(step) {
      InsideStep(s, step);
      WithinKeepsWire(s.lib, c, StepOn(s, step));
    } else if step.Arrive? {
      ArriveKeepsWire(s.lib, c, step.d, step.bs);
    } else if step.Receive? {
      ReceiveKeepsWire(s.lib, c, step.d);
    } else if step.Take? {
      TakeKeepsWire(s.lib, c, step.d);
    } else {
      TransmitKeepsWire(s.lib, c, step.d);
    }
  }

  ghost predicate WireInv(s: State) {
    forall c :: 0 <= c < |s.conns| ==> WireOk(s.lib, s.conns[c])
  }

  lemma StepKeepsWireInv(s: State, step: Step)
    requires WireInv(s) && Enabled(s, step)
    ensures WireInv(Do(s, step))
  {
    hide WireOk, EnabledOn, StepOn, Do;
    StepChanges(s, step);
    if step.Open? {
      NewWireOk(s.lib);
    } else if !step.Replace? {
      StepKeepsWire(s, step);
    }
  }

  /** Over every run all traffic stays as under the present value of the cell. */
  lemma {:induction false} RunKeepsWire(s: State, steps: seq<Step>, s': State)
    requires Runs(s, steps, s') && WireInv(s)
    ensures WireInv(s') && s'.lib == s.lib
    decreases |steps|
  {
    hide WireInv, Do, Enabled;
    if steps != [] {
      StepKeepsWireInv(s, steps[0]);
      StepChanges(s, steps[0]);
      RunKeepsWire(Do(s, steps[0]), steps[1..], s');
    }
  }
}
