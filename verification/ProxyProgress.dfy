/**
  What a node can always do: pending actions can run, unpoisoned rules can be
  replaced, and a node without rules can pass on every frame that has arrived.
  Models the loops of scylla-proxy/src/proxy.rs.
 */
module ProxyProgress {
  import opened Wire
  import opened Frames
  import opened FrameStreams
  import opened Rules
  import opened Proxy
  import opened ProxySafety
  import opened ProxyWire
  import opened ProxyRuns
  import opened PassThrough

  // -------------------------------------------------------------- pending actions

  /** A task whose frame is yet to be passed can pass it, which sends one more copy and nothing else. */
  lemma PassCanRun(s: State, c: nat, d: Direction, id: nat)
    requires Reachable(s) && c < |s.conns| && PendingPass(LaneOf(s.conns[c], d), id) == 1
    ensures Enabled(s, RunPass(c, d, id))
    ensures var conn, conn' := s.conns[c], Do(s, RunPass(c, d, id)).conns[c];
            && PendingPass(LaneOf(conn', d), id) == 0
            && Count(Channel(conn', d, true), d, Pass, id) == Count(Channel(conn, d, true), d, Pass, id) + 1
            && Channel(conn', d, false) == Channel(conn, d, false)
  {
    hide Reachable, FlagsOk, WireInv, AllAccounted, OutsOk, Defaults, InOrder, Count;
    ReachableInv(s);
    LanesOf(s.conns[c], d);
    var t := LaneOf(s.conns[c], d).tasks[id];
    CountAppend(Channel(s.conns[c], d, true),
                Out(d, Pass, id, Processed(t.reaction.toAddressee.value, t.frame)), d, Pass, id);
  }

  /** So can one that is yet to forge, unless it has no processor. */
  lemma ForgeCanRun(s: State, c: nat, d: Direction, id: nat)
    requires Reachable(s) && c < |s.conns| && PendingForge(LaneOf(s.conns[c], d), id) == 1
    ensures Enabled(s, RunForge(c, d, id))
    ensures var l, conn, conn' := LaneOf(s.conns[c], d), s.conns[c], Do(s, RunForge(c, d, id)).conns[c];
            && PendingForge(LaneOf(conn', d), id) == 0
            && Channel(conn', d, true) == Channel(conn, d, true)
            && (CanComplete(l.tasks[id].reaction) ==>
                  Count(Channel(conn', d, false), d, Forge, id) == Count(Channel(conn, d, false), d, Forge, id) + 1)
  {
    hide Reachable, FlagsOk, WireInv, AllAccounted, OutsOk, Defaults, InOrder, Count;
    ReachableInv(s);
    LanesOf(s.conns[c], d);
    var t := LaneOf(s.conns[c], d).tasks[id];
    if CanComplete(t.reaction) {
      CountAppend(Channel(s.conns[c], d, false),
                  Out(d, Forge, id, t.reaction.toSender.value.processor.value(t.frame)), d, Forge, id);
    }
  }

  /** Rules can be replaced exactly while their lock is not poisoned, and then are the new ones. */
  lemma ReplaceCanRun(s: State, d: Direction, rules: seq<Rule>)
    ensures Enabled(s, Replace(d, rules)) <==> !RulesOf(s, d).poisoned
    ensures !RulesOf(s, d).poisoned ==>
              var s' := Do(s, Replace(d, rules));
              && (d.FromDriver? ==>
                    s'.requestRules == RuleGuard(rules, false) && s'.responseRules == s.responseRules)
              && (d.FromCluster? ==>
                    s'.responseRules == RuleGuard(rules, false) && s'.requestRules == s.requestRules)
              && s'.conns == s.conns
  {
  }

  /** A frame left to NOOP is passed once as it came, one left to DROP_FRAME never. */
  lemma NoopAndDrop(s: State, c: nat, d: Direction, id: nat)
    requires Reachable(s) && c < |s.conns| && id < |LaneOf(s.conns[c], d).fates|
    ensures var conn, l := s.conns[c], LaneOf(s.conns[c], d);
            var passes := Count(Channel(conn, d, true), d, Pass, id);
            var forges := Count(Channel(conn, d, false), d, Forge, id);
            && (l.fates[id] == Consumed(NOOP) ==> passes + PendingPass(l, id) == 1 && forges == 0)
            && (l.fates[id] == Consumed(DROP_FRAME) ==> passes == forges == 0 && PendingPass(l, id) == 0)
  {
    hide Reachable, FlagsOk, WireInv, OutsOk, Defaults, Count;
    ReachableInv(s);
    LanesOf(s.conns[c], d);
    EveryFrameAccountedFor(s, c, d, id);
  }

  // ------------------------------------------------------------- passing it all on

  /** Everything that arrived as whole frames was decided about and written. */
  ghost predicate Drained(lib: Library, c: Conn, d: Direction) {
    && ParseFrame(lib, d, c.cell, SourceOf(c, d).unread).Err?
    && LaneOf(c, d).phase.Idle? && LaneOf(c, d).queue == []
    && SinkOf(c, d).sent == |Channel(c, d, true)| == |LaneOf(c, d).received|
  }

  function PhaseWork(p: Phase): (n: nat) {
    match p
    case Idle => 0
    case Stored(_) => 4
    case Loaded(_, _) => 3
    case Dead(_) => 0
  }

  /** What is left to do, counted so that every step of the lane's workers lowers it. */
  function Work(c: Conn, d: Direction): (n: int) {
    var l := LaneOf(c, d);
    |SourceOf(c, d).unread| + 5 * |l.queue| + PhaseWork(l.phase) + (|Channel(c, d, true)| - SinkOf(c, d).sent)
  }

  predicate Alive(c: Conn, d: Direction) {
    SourceOf(c, d).open && SinkOf(c, d).open
  }

  /** Which worker of the lane can go on. */
  function Next(s: State, c: nat, d: Direction): (step: Step)
    requires c < |s.conns|
  {
    var l := LaneOf(s.conns[c], d);
    if l.phase.Stored? then Load(c, d)
    else if l.phase.Loaded? then Apply(c, d, _ => false)
    else if l.queue != [] then Take(c, d)
    else if SinkOf(s.conns[c], d).sent < |Channel(s.conns[c], d, true)| then Transmit(c, d)
    else Receive(c, d)
  }

  lemma ParseShrinks(lib: Library, d: Direction, cell: Cell, stream: bytes)
    requires ParseFrame(lib, d, cell, stream).Ok?
    ensures |ParseFrame(lib, d, cell, stream).value.rest| + 9 <= |stream|
  {
    hide ParseHeader, MaybeDecompress;
  }

  lemma NextEnabled(s: State, c: nat, d: Direction)
    requires ReachableWithoutRules(s) && c < |s.conns| && Alive(s.conns[c], d) && !Drained(s.lib, s.conns[c], d)
    ensures Enabled(s, Next(s, c, d))
  {
    hide ReachableWithoutRules, ParseFrame, WriteFrame, Transparent, WireOk, AllForwarded;
    WithoutRules(s);
    var conn := s.conns[c];
    var l := LaneOf(conn, d);
    LaneForwarded(conn, d);
    NoTasks(l, Channel(conn, d, true), d);
    if l.phase.Loaded? {
      ScanNothing(s, c, d, _ => false);
    }
    SentBound(s, c, d);
  }

  lemma SentBound(s: State, c: nat, d: Direction)
    requires ReachableWithoutRules(s) && c < |s.conns|
    ensures var conn := s.conns[c];
            && SinkOf(conn, d).sent <= |Channel(conn, d, true)| == |LaneOf(conn, d).fates|
            && (LaneOf(conn, d).phase.Idle? && LaneOf(conn, d).queue == [] ==>
                  |LaneOf(conn, d).fates| == |LaneOf(conn, d).received|)
  {
    hide ReachableWithoutRules, Transparent, FlagsOk;
    WithoutRules(s);
    WithoutRulesInv(s);
    LaneForwarded(s.conns[c], d);
    WireMeaning(s.lib, s.conns[c], d);
    LanesOf(s.conns[c], d);
  }

  lemma WithoutRulesInv(s: State)
    requires ReachableWithoutRules(s)
    ensures Inv(s)
  {
    hide Runs, Inv;
    var start: State, steps: seq<Step> :|
      && Start(start) && NoRules(start) && Runs(start, steps, s)
      && forall i :: 0 <= i < |steps| && steps[i].Replace? ==> steps[i].rules == [];
    assert Reachable(s);
    ReachableInv(s);
  }

  lemma StepWithoutRules(s: State, step: Step)
    requires ReachableWithoutRules(s) && Enabled(s, step) && !step.Replace?
    ensures ReachableWithoutRules(Do(s, step))
  {
    hide Runs, Do, Enabled;
    var start: State, steps: seq<Step> :|
      && Start(start) && NoRules(start) && Runs(start, steps, s)
      && forall i :: 0 <= i < |steps| && steps[i].Replace? ==> steps[i].rules == [];
    RunsOneMore(start, steps, s, step);
    var more := steps + [step];
    assert forall i :: 0 <= i < |more| && more[i].Replace? ==> more[i].rules == [];
  }

  /** Each step of the lane's workers leaves less to do and keeps them alive. */
  lemma NextWorks(s: State, c: nat, d: Direction)
    requires ReachableWithoutRules(s) && c < |s.conns| && Alive(s.conns[c], d) && !Drained(s.lib, s.conns[c], d)
    requires forall b: bytes :: s.lib.snap(b).Some?
    requires Enabled(s, Next(s, c, d))
    ensures var s' := Do(s, Next(s, c, d));
            && s'.lib == s.lib && |s'.conns| == |s.conns| && Alive(s'.conns[c], d)
            && Work(s'.conns[c], d) < Work(s.conns[c], d)
            && SourceOf(s'.conns[c], d).stream == SourceOf(s.conns[c], d).stream
  {
    hide ReachableWithoutRules, ParseFrame, WriteFrame, Transparent, WireOk, StartupCell, IsRegister, AllForwarded;
    WithoutRules(s);
    var conn := s.conns[c];
    var l := LaneOf(conn, d);
    LaneForwarded(conn, d);
    NoTasks(l, Channel(conn, d, true), d);
    SentBound(s, c, d);
    var step := Next(s, c, d);
    if step.Apply? {
      ScanNothing(s, c, d, step.toss);
    } else if step.Transmit? {
      NothingRefused(s, c, d);
    } else if step.Receive? {
      ParseShrinks(s.lib, d, conn.cell, SourceOf(conn, d).unread);
    }
  }

  /**
    From every state a node without rules can pass on all that has arrived on a lane whose workers are
    alive: some run leaves no whole frame unread, undecided or unwritten.
   */
  lemma {:induction false} CanDrain(s: State, c: nat, d: Direction) returns (s': State)
    requires ReachableWithoutRules(s) && c < |s.conns| && Alive(s.conns[c], d)
    requires forall b: bytes :: s.lib.snap(b).Some?
    ensures Leads(s, s') && ReachableWithoutRules(s') && s'.lib == s.lib && c < |s'.conns|
    ensures Drained(s'.lib, s'.conns[c], d)
    ensures SourceOf(s'.conns[c], d).stream == SourceOf(s.conns[c], d).stream
    decreases Work(s.conns[c], d)
  {
    hide ReachableWithoutRules, Leads, Do, Enabled, Drained, Work, Next, Alive;
    if Drained(s.lib, s.conns[c], d) {
      LeadsNowhere(s);
      s' := s;
    } else {
      NextEnabled(s, c, d);
      NextWorks(s, c, d);
      WorkIsNatural(s, c, d);
      NextIsNoReplace(s, c, d);
      var step := Next(s, c, d);
      StepWithoutRules(s, step);
      s' := CanDrain(Do(s, step), c, d);
      StepThenLeads(s, step, s');
    }
  }

  lemma NextIsNoReplace(s: State, c: nat, d: Direction)
    requires c < |s.conns|
    ensures !Next(s, c, d).Replace?
  {
  }

  lemma WorkIsNatural(s: State, c: nat, d: Direction)
    requires ReachableWithoutRules(s) && c < |s.conns|
    ensures Work(s.conns[c], d) >= 0
  {
    hide ReachableWithoutRules;
    SentBound(s, c, d);
  }

  lemma StepThenLeads(s: State, step: Step, s': State)
    requires Enabled(s, step) && !step.Replace? && Leads(Do(s, step), s')
    ensures Leads(s, s')
  {
    hide Do, Enabled;
    var steps: seq<Step> :| (forall i :: 0 <= i < |steps| ==> !steps[i].Replace?) && Runs(Do(s, step), steps, s');
    var all := [step] + steps;
    assert all[0] == step && all[1..] == steps;
    assert Runs(s, all, s');
  }

  /** Then, without compression, what was written and what is unread are together all that arrived. */
  lemma DrainedBytes(s: State, c: nat, d: Direction)
    requires ReachableWithoutRules(s) && c < |s.conns| && Drained(s.lib, s.conns[c], d)
    requires Negotiated(s.conns[c].cell).None?
    ensures SinkOf(s.conns[c], d).written + SourceOf(s.conns[c], d).unread == SourceOf(s.conns[c], d).stream
  {
    hide ReachableWithoutRules, Transparent, ParseFrame, ParseFrames, WriteFrames, Negotiated, FramesOf;
    WithoutRules(s);
    var conn := s.conns[c];
    var received, stream := LaneOf(conn, d).received, SourceOf(conn, d).stream;
    SentAreReceived(s.lib, conn, d);
    WireMeaning(s.lib, conn, d);
    assert received[..|received|] == received;
    forall i | 0 <= i < |received|
      ensures Uncompressed(received[i])
    {
      NoneCompressed(s.lib, d, conn.cell, |received|, stream, i);
    }
    AllWrittenBack(s.lib, d, conn.cell, |received|, stream);
  }
}
