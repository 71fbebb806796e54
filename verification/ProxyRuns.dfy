/**
  What holds of a node after any run of its workers, from the first connection on.
 */
module ProxyRuns {
  import opened Wire
  import opened Opcodes
  import opened Frames
  import opened Extensions
  import opened Conditions
  import opened Rules
  import opened Proxy
  import opened ProxySafety
  import opened ProxyWire

  predicate Start(s: State) {
    s.conns == [] && !s.requestRules.poisoned && !s.responseRules.poisoned
  }

  /** Some run from a node without connections leads there. */
  ghost predicate Reachable(s: State) {
    exists start: State, steps: seq<Step> :: Start(start) && Runs(start, steps, s)
  }

  lemma ReachableInv(s: State)
    requires Reachable(s)
    ensures Inv(s) && WireInv(s)
  {
    hide Runs, LanesOk, FlagsOk, WireOk;
    var start: State, steps: seq<Step> :| Start(start) && Runs(start, steps, s);
    RunKeepsInv(start, steps, s);
    RunKeepsWire(start, steps, s);
  }

  // --------------------------------------------------------- conservation of frames

  /** Nothing was sent for the frame and no task holds it. */
  predicate Untouched(l: Lane, addressee: seq<Out>, sender: seq<Out>, d: Direction, id: nat) {
    && Count(addressee, d, Default, id) == Count(addressee, d, Pass, id) == Count(sender, d, Forge, id) == 0
    && id !in l.tasks
  }

  /**
    Each received frame is queued, in hand, sent on exactly once, or left to exactly one rule. What a
    dead processor holds and what is queued for it is lost: see `LostForever`.
   */
  lemma EveryFrameAccountedFor(s: State, c: nat, d: Direction, id: nat)
    requires Reachable(s) && c < |s.conns| && id < |LaneOf(s.conns[c], d).received|
    ensures var l := LaneOf(s.conns[c], d);
            var addressee, sender := Channel(s.conns[c], d, true), Channel(s.conns[c], d, false);
            var frame := l.received[id];
            if id < |l.fates| then
              match l.fates[id]
              case Forwarded =>
                && Count(addressee, d, Default, id) == 1 && id !in l.tasks
                && Count(addressee, d, Pass, id) == Count(sender, d, Forge, id) == 0
              case Consumed(r) =>
                && Count(addressee, d, Default, id) == 0
                && (CanComplete(r) ==>
                      && Count(addressee, d, Pass, id) + PendingPass(l, id) == One(r.toAddressee.Some?)
                      && Count(sender, d, Forge, id) + PendingForge(l, id) == One(r.toSender.Some?))
            else
              && Untouched(l, addressee, sender, d, id)
              && if id == |l.fates| && InHand(l) then l.phase.msg == Msg(id, frame)
                 else 0 <= id - Taken(l) < |l.queue| && l.queue[id - Taken(l)] == Msg(id, frame)
  {
    hide Reachable, FlagsOk, Count, Defaults, WireInv, ForwardedIds, OutOk;
    ReachableInv(s);
    LanesOf(s.conns[c], d);
    var l := LaneOf(s.conns[c], d);
    var addressee, sender := Channel(s.conns[c], d, true), Channel(s.conns[c], d, false);
    if id < |l.fates| {
      assert Accounted(l, addressee, sender, d, id);
    } else {
      NothingSent(l, addressee, d, true, Default, id);
      NothingSent(l, addressee, d, true, Pass, id);
      NothingSent(l, sender, d, false, Forge, id);
    }
  }

  /** Of every frame left to this reaction exactly the copies it asks for are sent or to be sent. */
  ghost predicate ExactFor(s: State, r: Reaction) {
    forall c, d, id ::
      0 <= c < |s.conns| && 0 <= id < |LaneOf(s.conns[c], d).fates| && LaneOf(s.conns[c], d).fates[id] == Consumed(r)
      ==> ExactCopies(s.conns[c], d, id, r)
  }

  predicate ExactCopies(c: Conn, d: Direction, id: nat, r: Reaction) {
    && Count(Channel(c, d, true), d, Pass, id) + PendingPass(LaneOf(c, d), id) == One(r.toAddressee.Some?)
    && Count(Channel(c, d, false), d, Forge, id) + PendingForge(LaneOf(c, d), id) == One(r.toSender.Some?)
  }

  /** A reaction gets its exact copies in all runs iff it does not forge without a processor. */
  lemma ExactCopiesExactlyWhen(r: Reaction)
    ensures (forall s :: Reachable(s) ==> ExactFor(s, r)) <==> CanComplete(r)
  {
    hide Reachable;
    if CanComplete(r) {
      forall s, c, d, id | Reachable(s) && 0 <= c < |s.conns| && 0 <= id < |LaneOf(s.conns[c], d).fates|
                           && LaneOf(s.conns[c], d).fates[id] == Consumed(r)
        ensures ExactCopies(s.conns[c], d, id, r)
      {
        ReachableInv(s);
        LanesOf(s.conns[c], d);
        assert id < |LaneOf(s.conns[c], d).received|;
        EveryFrameAccountedFor(s, c, d, id);
      }
    } else {
      var s := LostCopies(r);
      assert LaneOf(s.conns[0], FromDriver).fates[0] == Consumed(r);
      assert !ExactCopies(s.conns[0], FromDriver, 0, r);
    }
  }

  lemma {:induction false} RunsOneMore(s: State, steps: seq<Step>, s': State, step: Step)
    requires Runs(s, steps, s') && Enabled(s', step)
    ensures Runs(s, steps + [step], Do(s', step))
    decreases |steps|
  {
    hide Do, Enabled;
    if steps == [] {
      assert [step][1..] == [];
      assert Runs(Do(s, step), [], Do(s, step));
    } else {
      RunsOneMore(Do(s, steps[0]), steps[1..], s', step);
      assert (steps + [step])[1..] == steps[1..] + [step];
    }
  }

  /** Some run that replaces no rules leads from one state to the other. */
  ghost predicate Leads(s: State, s': State) {
    exists steps: seq<Step> :: (forall i :: 0 <= i < |steps| ==> !steps[i].Replace?) && Runs(s, steps, s')
  }

  lemma LeadsNowhere(s: State)
    ensures Leads(s, s)
  {
    assert Runs(s, [], s);
  }

  lemma LeadsReachable(s: State, s': State)
    requires Start(s) && Leads(s, s')
    ensures Reachable(s')
  {
  }

  lemma Follow(start: State, s: State, step: Step) returns (s': State)
    requires Leads(start, s) && Enabled(s, step) && !step.Replace?
    ensures s' == Do(s, step) && Leads(start, s')
  {
    hide Runs, Do, Enabled;
    var steps: seq<Step> :| (forall i :: 0 <= i < |steps| ==> !steps[i].Replace?) && Runs(start, steps, s);
    RunsOneMore(start, steps, s, step);
    s' := Do(s, step);
    assert forall i :: 0 <= i < |steps + [step]| ==> !(steps + [step])[i].Replace?;
  }

  const SOME_LIBRARY := Library(b => b, (b, _) => Some(b), b => Some(b), b => Some(b))

  /** A request whose task panicked when it was to forge. */
  lemma LostCopies(r: Reaction) returns (s: State)
    requires !CanComplete(r)
    ensures Reachable(s) && |s.conns| == 1 && s.conns[0].requests.fates == [Consumed(r)]
    ensures s.conns[0].toCluster == s.conns[0].toDriver == [] && s.conns[0].requests.tasks == map[]
  {
    hide Reachable, Leads, ParseFrame, WriteFrame;
    var start := State(SOME_LIBRARY, [], RuleGuard([Rule(True, r)], false), RuleGuard([], false));
    LeadsNowhere(start);
    s := Follow(start, start, Open);
    s := Deliver(start, s, 0, FromDriver);
    s := Follow(start, s, Apply(0, FromDriver, _ => false));
    s := Follow(start, s, RunForge(0, FromDriver, 0));
    LeadsReachable(start, s);
  }

  /** A frame that says nothing about events or compression. */
  function Probe(d: Direction): (f: Frame) {
    if d.FromDriver? then Frame(FrameParams(4, 0, 0), Request(Options), [])
    else Frame(FrameParams(0x84, 0, 0), Response(Ready), [])
  }

  lemma ProbeParses(lib: Library, d: Direction, cell: Cell) returns (bs: bytes)
    ensures ParseFrame(lib, d, cell, bs) == Ok(Parsed(Probe(d), []))
  {
    PlainRoundTrip(lib, d, cell, Probe(d), []);
    bs := WriteFrame(lib, cell, Probe(d)).value;
    assert bs + [] == bs;
  }

  /** A lane that waits for its next frame with nothing unread. */
  predicate Waiting(c: Conn, d: Direction) {
    && SourceOf(c, d).open && SourceOf(c, d).unread == []
    && LaneOf(c, d).phase.Idle? && LaneOf(c, d).queue == []
  }

  /** Whatever the rules are, a waiting lane can be brought to scan them for a frame. */
  lemma Deliver(start: State, s: State, c: nat, d: Direction) returns (s': State)
    requires Leads(start, s) && c < |s.conns| && Waiting(s.conns[c], d)
    ensures Leads(start, s') && s'.lib == s.lib && |s'.conns| == |s.conns|
    ensures forall i :: 0 <= i < |s.conns| && i != c ==> s'.conns[i] == s.conns[i]
    ensures s'.requestRules == s.requestRules && s'.responseRules == s.responseRules
    ensures var l, l' := LaneOf(s.conns[c], d), LaneOf(s'.conns[c], d);
            && l'.phase == Loaded(Msg(|l.received|, Probe(d)), s.conns[c].hasEvents)
            && l'.fates == l.fates && l'.tasks == l.tasks
            && s'.conns[c].toCluster == s.conns[c].toCluster && s'.conns[c].toDriver == s.conns[c].toDriver
  {
    hide Leads, ParseFrame, WriteFrame, StartupOptions, ReceiveOn, CanReceive;
    var s1 := Queued(start, s, c, d);
    var s2 := Follow(start, s1, Take(c, d));
    s' := Follow(start, s2, Load(c, d));
  }

  lemma Queued(start: State, s: State, c: nat, d: Direction) returns (s': State)
    requires Leads(start, s) && c < |s.conns| && Waiting(s.conns[c], d)
    ensures Leads(start, s') && s'.lib == s.lib && |s'.conns| == |s.conns|
    ensures s'.requestRules == s.requestRules && s'.responseRules == s.responseRules
    ensures s'.conns == s.conns[c := s'.conns[c]]
    ensures var l := LaneOf(s.conns[c], d);
            && LaneOf(s'.conns[c], d)
               == l.(received := l.received + [Probe(d)], queue := [Msg(|l.received|, Probe(d))])
            && s'.conns[c].toCluster == s.conns[c].toCluster && s'.conns[c].toDriver == s.conns[c].toDriver
            && s'.conns[c].hasEvents == s.conns[c].hasEvents
  {
    hide Leads, ParseFrame, WriteFrame;
    var bs := ProbeParses(s.lib, d, s.conns[c].cell);
    var s1 := Follow(start, s, Arrive(c, d, bs));
    assert SourceOf(s1.conns[c], d).unread == bs;
    s' := Follow(start, s1, Receive(c, d));
    assert s'.conns == s.conns[c := s'.conns[c]];
  }

  lemma {:induction false} DefaultListed(outs: seq<Out>, d: Direction, i: nat)
    requires i < |outs| && outs[i].d == d && outs[i].kind.Default?
    ensures outs[i].id in Defaults(outs, d)
    decreases |outs|
  {
    if i < |outs| - 1 {
      DefaultListed(outs[..|outs| - 1], d, i);
    }
  }

  predicate Increasing(ids: seq<nat>) {
    forall i, j :: 0 <= i < j < |ids| ==> ids[i] < ids[j]
  }

  lemma {:induction false} DefaultsInOrder(outs: seq<Out>, d: Direction, i: nat, j: nat)
    requires i < j < |outs| && outs[i].d == outs[j].d == d && outs[i].kind.Default? && outs[j].kind.Default?
    requires Increasing(Defaults(outs, d))
    ensures outs[i].id < outs[j].id
    decreases |outs|
  {
    var n := |outs| - 1;
    var init := Defaults(outs[..n], d);
    assert init <= Defaults(outs, d);
    if j < n {
      assert Increasing(init);
      DefaultsInOrder(outs[..n], d, i, j);
    } else {
      DefaultListed(outs[..n], d, i);
      var k :| 0 <= k < |init| && init[k] == outs[i].id;
      assert Defaults(outs, d)[k] == outs[i].id && Defaults(outs, d)[|init|] == outs[n].id;
    }
  }

  /** Frames sent on by default leave in the order of their arrival, as they came. */
  lemma DefaultsKeepOrder(s: State, c: nat, d: Direction, i: nat, j: nat)
    requires Reachable(s) && c < |s.conns|
    requires var outs := Channel(s.conns[c], d, true);
             i < j < |outs| && outs[i].d == outs[j].d == d && outs[i].kind.Default? && outs[j].kind.Default?
    ensures var outs := Channel(s.conns[c], d, true);
            var received := LaneOf(s.conns[c], d).received;
            && outs[i].id < outs[j].id < |received|
            && outs[i].frame == received[outs[i].id] && outs[j].frame == received[outs[j].id]
  {
    hide Reachable, FlagsOk, Count, Defaults, ForwardedIds, InOrder, TasksOk, AllAccounted, WireInv;
    ReachableInv(s);
    LanesOf(s.conns[c], d);
    var l, outs := LaneOf(s.conns[c], d), Channel(s.conns[c], d, true);
    assert OutOk(l, outs[i], true) && OutOk(l, outs[j], true);
    assert Increasing(ForwardedIds(l.fates));
    DefaultsInOrder(outs, d, i, j);
  }

  /** A passed copy is the frame as it came, or as the processor of the one rule changed it. */
  lemma PassedCopies(s: State, c: nat, d: Direction, i: nat)
    requires Reachable(s) && c < |s.conns|
    requires var outs := Channel(s.conns[c], d, true);
             i < |outs| && outs[i].d == d && outs[i].kind.Pass?
    ensures var o, l := Channel(s.conns[c], d, true)[i], LaneOf(s.conns[c], d);
            && o.id < |l.fates| <= |l.received| && l.fates[o.id].Consumed?
            && var action := l.fates[o.id].reaction.toAddressee;
               && action.Some?
               && (action.value.processor.None? ==> o.frame == l.received[o.id])
               && (action.value.processor.Some? ==> o.frame == action.value.processor.value(l.received[o.id]))
  {
    hide Reachable, FlagsOk, Count, Defaults, ForwardedIds, InOrder, TasksOk, AllAccounted, WireInv;
    ReachableInv(s);
    LanesOf(s.conns[c], d);
    assert OutOk(LaneOf(s.conns[c], d), Channel(s.conns[c], d, true)[i], true);
  }

  /** A forged copy goes back to where the frame came from, as the processor of the one rule made it. */
  lemma ForgedCopies(s: State, c: nat, d: Direction, i: nat)
    requires Reachable(s) && c < |s.conns|
    requires var outs := Channel(s.conns[c], d, false);
             i < |outs| && outs[i].d == d && outs[i].kind.Forge?
    ensures var o, l := Channel(s.conns[c], d, false)[i], LaneOf(s.conns[c], d);
            && o.id < |l.fates| <= |l.received| && l.fates[o.id].Consumed?
            && var action := l.fates[o.id].reaction.toSender;
               && action.Some? && action.value.processor.Some?
               && o.frame == action.value.processor.value(l.received[o.id])
  {
    hide Reachable, FlagsOk, Count, Defaults, ForwardedIds, InOrder, TasksOk, AllAccounted, WireInv;
    ReachableInv(s);
    LanesOf(s.conns[c], d);
    assert OutOk(LaneOf(s.conns[c], d), Channel(s.conns[c], d, false)[i], false);
  }

  /** What is on the way to the cluster came from a request, or was forged for a response; and the other way round. */
  lemma WaysOfFrames(s: State, c: nat, i: nat)
    requires Reachable(s) && c < |s.conns|
    ensures i < |s.conns[c].toCluster| ==>
              (s.conns[c].toCluster[i].kind.Forge? <==> s.conns[c].toCluster[i].d == FromCluster)
    ensures i < |s.conns[c].toDriver| ==>
              (s.conns[c].toDriver[i].kind.Forge? <==> s.conns[c].toDriver[i].d == FromDriver)
  {
    hide Reachable, FlagsOk, Count, Defaults, ForwardedIds, InOrder, TasksOk, AllAccounted, WireInv;
    ReachableInv(s);
    var conn := s.conns[c];
    LanesOf(conn, FromDriver);
    LanesOf(conn, FromCluster);
    if i < |conn.toCluster| {
      var o := conn.toCluster[i];
      assert OutOk(LaneOf(conn, o.d), o, o.d.FromDriver?);
    }
    if i < |conn.toDriver| {
      var o := conn.toDriver[i];
      assert OutOk(LaneOf(conn, o.d), o, o.d.FromCluster?);
    }
  }

  // ------------------------------------------------- the event flag and the cell

  /** The requests that the processor has taken off the queue. */
  function TakenRequests(c: Conn): (fs: seq<Frame>) {
    if |c.requests.queue| <= |c.requests.received|
    then c.requests.received[..|c.requests.received| - |c.requests.queue|] else []
  }

  /** Whatever was handed towards the cluster had its effect before. */
  lemma SetBeforeHandOver(s: State, c: nat, i: nat)
    requires Reachable(s) && c < |s.conns| && i < |s.conns[c].toCluster| && s.conns[c].toCluster[i].d.FromDriver?
    ensures var conn := s.conns[c];
            var id := conn.toCluster[i].id;
            && id < |conn.requests.received|
            && (conn.requests.received[id].opcode == Request(Register) ==> conn.hasEvents)
            && (StartupCell(conn.requests.received[id]).Some? ==> conn.cell.Some?)
            && conn.cell == FirstStartup(TakenRequests(conn)) && id < |TakenRequests(conn)|
  {
    hide Reachable, StartupCell, Count, Defaults, FirstStartup, TasksOk, AllAccounted, WireInv;
    ReachableInv(s);
    var conn := s.conns[c];
    LanesOf(conn, FromDriver);
    var l, id := conn.requests, conn.toCluster[i].id;
    assert OutOk(l, conn.toCluster[i], true);
    var taken := l.received[..|l.received| - |l.queue|];
    assert taken[id] == l.received[id];
    if StartupCell(l.received[id]).Some? {
      StartupFound(taken, id);
    }
  }

  /** The flag is up exactly if a REGISTER was taken, the cell set exactly if a STARTUP that could be parsed was. */
  lemma FlagsExactlyWhen(s: State, c: nat)
    requires Reachable(s) && c < |s.conns|
    ensures var taken, conn := TakenRequests(s.conns[c]), s.conns[c];
            && (conn.hasEvents <==> exists i :: 0 <= i < |taken| && taken[i].opcode == Request(Register))
            && (conn.cell.Some? <==>
                  exists i :: 0 <= i < |taken| && taken[i].opcode == Request(Startup)
                              && ReadMap(Strings, taken[i].body).Ok?)
  {
    hide Reachable, WireInv, LanesOk, ReadMap;
    ReachableInv(s);
    var taken, conn := TakenRequests(s.conns[c]), s.conns[c];
    assert FlagsOk(conn);
    RegisterTaken(taken);
    if conn.cell.Some? {
      var i := StartupAt(taken);
    }
    if exists i :: 0 <= i < |taken| && taken[i].opcode == Request(Startup) && ReadMap(Strings, taken[i].body).Ok? {
      var i :| 0 <= i < |taken| && taken[i].opcode == Request(Startup) && ReadMap(Strings, taken[i].body).Ok?;
      StartupFound(taken, i);
    }
  }

  lemma RegisterTaken(fs: seq<Frame>)
    ensures AnyRegister(fs) <==> exists i :: 0 <= i < |fs| && fs[i].opcode == Request(Register)
  {
    if exists i :: 0 <= i < |fs| && fs[i].opcode == Request(Register) {
      var i :| 0 <= i < |fs| && fs[i].opcode == Request(Register);
      assert IsRegister(fs[i]);
    }
  }

  lemma {:induction false} StartupAt(fs: seq<Frame>) returns (i: nat)
    requires FirstStartup(fs).Some?
    ensures i < |fs| && StartupCell(fs[i]) == FirstStartup(fs)
    decreases |fs|
  {
    hide StartupCell;
    var init := fs[..|fs| - 1];
    if FirstStartup(init).Some? {
      i := StartupAt(init);
    } else {
      i := |fs| - 1;
    }
  }

  /** A set flag stays set and a set cell keeps its value. */
  ghost predicate Keeps(c: Conn, c': Conn) {
    (c.hasEvents ==> c'.hasEvents) && (c.cell.Some? ==> c'.cell == c.cell)
  }

  lemma StepKeepsFlags(s: State, step: Step, c: nat)
    requires Enabled(s, step) && c < |s.conns|
    ensures c < |Do(s, step).conns| && Keeps(s.conns[c], Do(s, step).conns[c])
  {
    hide StepOn, EnabledOn, Do;
    StepChanges(s, step);
    if !step.Open? && !step.Replace? && step.c == c {
      StepKeepsFlagsOn(s, step);
    }
  }

  lemma StepKeepsFlagsOn(s: State, step: Step)
    requires !step.Open? && !step.Replace? && step.c < |s.conns| && EnabledOn(s, step)
    ensures Keeps(s.conns[step.c], StepOn(s, step))
  {
    hide Locked, ParseFrame, WriteFrame, StartupCell, IsRegister;
  }

  /** A flag that was raised and a cell that was set are found like that ever after. */
  lemma {:induction false} RunKeepsFlags(s: State, steps: seq<Step>, s': State, c: nat)
    requires Runs(s, steps, s') && c < |s.conns|
    ensures c < |s'.conns| && Keeps(s.conns[c], s'.conns[c])
    decreases |steps|
  {
    hide Do, Enabled;
    if steps != [] {
      StepKeepsFlags(s, steps[0], c);
      RunKeepsFlags(Do(s, steps[0]), steps[1..], s', c);
    }
  }

  /** A response whose processing loads the flag after a REGISTER was handed over sees it. */
  lemma LaterResponsesSee(s: State, steps: seq<Step>, s': State, c: nat, i: nat)
    requires Reachable(s) && Runs(s, steps, s') && c < |s.conns| && c < |s'.conns|
    requires i < |s.conns[c].toCluster| && s.conns[c].toCluster[i].d.FromDriver?
    requires s.conns[c].toCluster[i].id < |s.conns[c].requests.received|
    requires s.conns[c].requests.received[s.conns[c].toCluster[i].id].opcode == Request(Register)
    requires s'.conns[c].responses.phase.Stored?
    ensures LoadOn(s'.conns[c], FromCluster).responses.phase.hasEvents
  {
    hide Reachable, Runs, StartupCell;
    SetBeforeHandOver(s, c, i);
    RunKeepsFlags(s, steps, s', c);
  }

  /**
    Once a STARTUP that could be parsed was handed over, everything that the connection ever reads
    and ever writes, before and after, is coded as the first such STARTUP asked.
   */
  lemma TrafficAfterStartup(s: State, steps: seq<Step>, s': State, c: nat, i: nat)
    requires Reachable(s) && Runs(s, steps, s') && c < |s.conns| && c < |s'.conns|
    requires i < |s.conns[c].toCluster| && s.conns[c].toCluster[i].d.FromDriver?
    requires s.conns[c].toCluster[i].id < |s.conns[c].requests.received|
    requires StartupCell(s.conns[c].requests.received[s.conns[c].toCluster[i].id]).Some?
    ensures var agreed := FirstStartup(TakenRequests(s.conns[c]));
            && agreed.Some? && s'.conns[c].cell == agreed
            && forall d :: TrafficUnder(s.lib, agreed, s'.conns[c], d)
  {
    hide Reachable, Runs, StartupCell, FirstStartup, WireOk, Inv;
    SetBeforeHandOver(s, c, i);
    RunKeepsFlags(s, steps, s', c);
    ReachableInv(s);
    RunKeepsWire(s, steps, s');
    forall d
      ensures TrafficUnder(s.lib, s'.conns[c].cell, s'.conns[c], d)
    {
      WireMeaning(s.lib, s'.conns[c], d);
    }
  }

  /** All frames received were parsed and all frames sent were written with this setting. */
  ghost predicate TrafficUnder(lib: Library, cell: Cell, c: Conn, d: Direction) {
    var l, source, outs, sink := LaneOf(c, d), SourceOf(c, d), Channel(c, d, true), SinkOf(c, d);
    && ParseFrames(lib, d, cell, |l.received|, source.stream) == Ok(ParsedAll(l.received, source.unread))
    && sink.sent <= |outs| && WriteFrames(lib, cell, FramesOf(outs[..sink.sent])) == Ok(sink.written)
  }

  lemma WireMeaning(lib: Library, c: Conn, d: Direction)
    requires WireOk(lib, c)
    ensures TrafficUnder(lib, c.cell, c, d)
  {
    hide ParseFrames, WriteFrames, FramesOf;
  }

  // ----------------------------------------------------------- rules over a run

  predicate Replaces(step: Step, d: Direction) {
    step.Replace? && step.d == d
  }

  predicate AnyReplaces(steps: seq<Step>, d: Direction) {
    exists i :: 0 <= i < |steps| && Replaces(steps[i], d)
  }

  /** The rules of the last replacement, or those at first. */
  function LastRules(rules: seq<Rule>, steps: seq<Step>, d: Direction): (r: seq<Rule>)
    decreases |steps|
  {
    if steps == [] then rules
    else LastRules(if Replaces(steps[0], d) then steps[0].rules else rules, steps[1..], d)
  }

  lemma {:induction false} LastRulesOf(rules: seq<Rule>, other: seq<Rule>, steps: seq<Step>, d: Direction)
    ensures if AnyReplaces(steps, d) then LastRules(rules, steps, d) == LastRules(other, steps, d)
            else LastRules(rules, steps, d) == rules
    decreases |steps|
  {
    if steps != [] {
      AnyReplacesStep(steps, d);
      if Replaces(steps[0], d) {
        LastRulesOf(steps[0].rules, steps[0].rules, steps[1..], d);
      } else {
        LastRulesOf(rules, other, steps[1..], d);
      }
    }
  }

  lemma AnyReplacesStep(steps: seq<Step>, d: Direction)
    requires steps != []
    ensures AnyReplaces(steps, d) <==> Replaces(steps[0], d) || AnyReplaces(steps[1..], d)
  {
    if AnyReplaces(steps[1..], d) {
      var i :| 0 <= i < |steps[1..]| && Replaces(steps[1..][i], d);
      assert Replaces(steps[i + 1], d);
    }
    if AnyReplaces(steps, d) && !Replaces(steps[0], d) {
      var i :| 0 <= i < |steps| && Replaces(steps[i], d);
      assert Replaces(steps[1..][i - 1], d);
    }
  }

  /** The contexts of the scans since the last replacement, in the order in which the lock was held. */
  ghost function Contexts(s: State, steps: seq<Step>, d: Direction): (ctxs: seq<EvaluationContext>)
    requires exists s' :: Runs(s, steps, s')
    decreases |steps|
  {
    if steps == [] then []
    else
      var s' :| Runs(s, steps, s');
      assert Runs(Do(s, steps[0]), steps[1..], s');
      var step := steps[0];
      (if Scans(step) && step.d == d && !RulesOf(s, d).poisoned && !AnyReplaces(steps[1..], d)
       then [ContextOf(s, step.c, d, step.toss)] else [])
      + Contexts(Do(s, step), steps[1..], d)
  }

  lemma StepChangesRules(s: State, step: Step, d: Direction)
    requires Enabled(s, step)
    ensures RulesOf(Do(s, step), d)
            == if Replaces(step, d) then RuleGuard(step.rules, false)
               else if Scans(step) && step.d == d
                    then AfterLock(RulesOf(s, d), ContextOf(s, step.c, d, step.toss))
               else RulesOf(s, d)
  {
    hide AfterLock, StepOn;
  }

  /** Whatever the connections do in between, the rules are those after these scans. */
  lemma {:induction false} RulesAfterRun(s: State, steps: seq<Step>, s': State, d: Direction)
    requires Runs(s, steps, s')
    ensures RulesOf(s', d).rules == AfterScans(LastRules(RulesOf(s, d).rules, steps, d), Contexts(s, steps, d))
    decreases |steps|
  {
    hide Scan, Do, CanReceive;
    if steps != [] {
      var step, s1 := steps[0], Do(s, steps[0]);
      RulesAfterRun(s1, steps[1..], s', d);
      StepChangesRules(s, step, d);
      LastRulesOf(RulesOf(s1, d).rules, RulesOf(s, d).rules, steps[1..], d);
      var tail := Contexts(s1, steps[1..], d);
      if Scans(step) && step.d == d && !RulesOf(s, d).poisoned && !AnyReplaces(steps[1..], d) {
        LastRulesOf(RulesOf(s, d).rules, [], steps[1..], d);
        ScanFirst(RulesOf(s, d).rules, ContextOf(s, step.c, d, step.toss), tail);
      } else {
        assert Contexts(s, steps, d) == tail;
        assert LastRules(RulesOf(s, d).rules, steps, d) == LastRules(RulesOf(s1, d).rules, steps[1..], d);
      }
    }
  }

  lemma ScanFirst(rules: seq<Rule>, ctx: EvaluationContext, ctxs: seq<EvaluationContext>)
    ensures AfterScans(rules, [ctx] + ctxs) == AfterScans(Scan(rules, ctx).rules, ctxs)
  {
    hide Scan;
    assert ([ctx] + ctxs)[1..] == ctxs;
  }

  /** Of the requests scanned since window rules were set, the `i`-th is passed iff `a <= i < a + b`. */
  lemma WindowOfRequests(s: State, steps: seq<Step>, s': State, c: nat, toss: nat -> bool, a: nat, b: nat)
    requires Runs(s, steps, s') && LastRules(s.requestRules.rules, steps, FromDriver) == WindowRules(a + b, a)
    requires Enabled(s', Apply(c, FromDriver, toss))
    ensures var i := |Contexts(s, steps, FromDriver)|;
            var fates := Do(s', Apply(c, FromDriver, toss)).conns[c].requests.fates;
            && |fates| > 0 && fates[|fates| - 1].Consumed?
            && (fates[|fates| - 1].reaction == NOOP <==> a <= i < a + b)
  {
    hide Scan, Runs, AfterScans, Contexts, LastRules;
    var ctxs := Contexts(s, steps, FromDriver);
    var ctx := ContextOf(s', c, FromDriver, toss);
    RulesAfterRun(s, steps, s', FromDriver);
    var all := ctxs + [ctx];
    assert all[..|ctxs|] == ctxs && all[|ctxs|] == ctx;
    WindowPasses(a, b, all, |ctxs|);
  }
}
