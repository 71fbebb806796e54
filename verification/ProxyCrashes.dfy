/**
  What a condition that panics does to a node: it kills the processor that holds the
  lock on the rules, and the poisoned lock stops that direction on every connection.
  Models the `lock().unwrap()` of scylla-proxy/src/proxy.rs and the panics of
  scylla-proxy/src/actions.rs.
 */
module ProxyCrashes {
  import opened Wire
  import opened Opcodes
  import opened Frames
  import opened FrameStreams
  import opened Conditions
  import opened Rules
  import opened Proxy
  import opened ProxySafety
  import opened ProxyWire
  import opened ProxyRuns

  // ------------------------------------------------------------------- one step

  /** What a step can do to a lane of its connection. */
  lemma StepOnLane(s: State, step: Step, d: Direction)
    requires !step.Open? && !step.Replace? && step.c < |s.conns| && EnabledOn(s, step)
    ensures var l, l' := LaneOf(s.conns[step.c], d), LaneOf(StepOn(s, step), d);
            && l.received <= l'.received
            && (l.phase.Dead? ==> l'.phase == l.phase)
            && (l'.phase.Dead? <==> l.phase.Dead? || (step.Crash? && step.d == d))
            && (l'.fates == l.fates || (step.Apply? && step.d == d))
  {
    hide Locked, ParseFrame, WriteFrame, StartupCell, IsRegister;
  }

  /** Only a crash poisons a lock, and nothing clears it. */
  lemma StepPoisons(s: State, step: Step, d: Direction)
    requires Enabled(s, step)
    ensures RulesOf(Do(s, step), d).poisoned <==> RulesOf(s, d).poisoned || (step.Crash? && step.d == d)
  {
    hide Scan, Do, CanReceive;
    StepChangesRules(s, step, d);
  }

  // ------------------------------------------------------------- dead and poisoned

  ghost predicate AnyDead(s: State, d: Direction) {
    exists c :: 0 <= c < |s.conns| && LaneOf(s.conns[c], d).phase.Dead?
  }

  lemma StepDies(s: State, step: Step, d: Direction)
    requires Enabled(s, step)
    ensures AnyDead(Do(s, step), d) <==> AnyDead(s, d) || (step.Crash? && step.d == d)
  {
    hide EnabledOn, StepOn, Do;
    StepChanges(s, step);
    var s' := Do(s, step);
    if step.Open? {
      if AnyDead(s, d) {
        var c :| 0 <= c < |s.conns| && LaneOf(s.conns[c], d).phase.Dead?;
        assert s'.conns[c] == s.conns[c];
      }
    } else if !step.Replace? {
      StepOnLane(s, step, d);
      if AnyDead(s, d) {
        var c :| 0 <= c < |s.conns| && LaneOf(s.conns[c], d).phase.Dead?;
        assert LaneOf(s'.conns[c], d).phase.Dead?;
      } else if step.Crash? && step.d == d {
        assert LaneOf(s'.conns[step.c], d).phase.Dead?;
      }
    }
  }

  lemma {:induction false} RunDies(s: State, steps: seq<Step>, s': State, d: Direction)
    requires Runs(s, steps, s') && (RulesOf(s, d).poisoned <==> AnyDead(s, d))
    ensures RulesOf(s', d).poisoned <==> AnyDead(s', d)
    decreases |steps|
  {
    hide Do, Enabled, AnyDead;
    if steps != [] {
      StepPoisons(s, steps[0], d);
      StepDies(s, steps[0], d);
      RunDies(Do(s, steps[0]), steps[1..], s', d);
    }
  }

  /** A lock is poisoned exactly when some processor of its direction died. */
  lemma PoisonedExactlyWhen(s: State, d: Direction)
    requires Reachable(s)
    ensures RulesOf(s, d).poisoned <==> AnyDead(s, d)
  {
    hide Runs;
    var start: State, steps: seq<Step> :| Start(start) && Runs(start, steps, s);
    RunDies(start, steps, s, d);
  }

  // ------------------------------------------------------- what a crash stops

  ghost predicate SameFates(s: State, s': State, d: Direction) {
    && |s.conns| <= |s'.conns|
    && forall c :: 0 <= c < |s'.conns| ==>
         LaneOf(s'.conns[c], d).fates == if c < |s.conns| then LaneOf(s.conns[c], d).fates else []
  }

  lemma PoisonedStep(s: State, step: Step, d: Direction)
    requires Enabled(s, step) && RulesOf(s, d).poisoned
    ensures RulesOf(Do(s, step), d) == RulesOf(s, d) && SameFates(s, Do(s, step), d)
  {
    hide StepOn, Do, CanReceive, Scan;
    StepChanges(s, step);
    StepChangesRules(s, step, d);
    if !step.Open? && !step.Replace? {
      StepOnLane(s, step, d);
    }
  }

  /** Once a lock is poisoned no connection, old or new, decides about another frame of that direction. */
  lemma {:induction false} PoisonStops(s: State, steps: seq<Step>, s': State, d: Direction)
    requires Runs(s, steps, s') && RulesOf(s, d).poisoned
    ensures RulesOf(s', d) == RulesOf(s, d) && SameFates(s, s', d)
    decreases |steps|
  {
    hide Do, Enabled;
    if steps != [] {
      PoisonedStep(s, steps[0], d);
      PoisonStops(Do(s, steps[0]), steps[1..], s', d);
    }
  }

  lemma {:induction false} StaysDead(s: State, steps: seq<Step>, s': State, c: nat, d: Direction)
    requires Runs(s, steps, s') && c < |s.conns| && LaneOf(s.conns[c], d).phase.Dead?
    ensures c < |s'.conns| && LaneOf(s'.conns[c], d).phase == LaneOf(s.conns[c], d).phase
    ensures LaneOf(s'.conns[c], d).fates == LaneOf(s.conns[c], d).fates
    ensures LaneOf(s.conns[c], d).received <= LaneOf(s'.conns[c], d).received
    decreases |steps|
  {
    hide Do, StepOn, CanReceive, Scan;
    if steps != [] {
      var step := steps[0];
      StepChanges(s, step);
      if !step.Open? && !step.Replace? && step.c == c {
        StepOnLane(s, step, d);
      }
      StaysDead(Do(s, step), steps[1..], s', c, d);
    }
  }

  /** Nothing is ever sent for the frame that a dead processor holds, nor for those behind it. */
  lemma LostForever(s: State, steps: seq<Step>, s': State, c: nat, d: Direction, id: nat)
    requires Reachable(s) && Runs(s, steps, s') && c < |s.conns| && c < |s'.conns|
    requires LaneOf(s.conns[c], d).phase.Dead?
    requires |LaneOf(s.conns[c], d).fates| <= id < |LaneOf(s'.conns[c], d).received|
    ensures var c' := s'.conns[c];
            Untouched(LaneOf(c', d), Channel(c', d, true), Channel(c', d, false), d, id)
  {
    hide Reachable, Runs, Count, Untouched;
    StaysDead(s, steps, s', c, d);
    ReachableRun(s, steps, s');
    EveryFrameAccountedFor(s', c, d, id);
  }

  lemma ReachableRun(s: State, steps: seq<Step>, s': State)
    requires Reachable(s) && Runs(s, steps, s')
    ensures Reachable(s')
  {
    hide Runs;
    var start: State, before: seq<Step> :| Start(start) && Runs(start, before, s);
    RunsOnward(start, before, s, steps, s');
    assert Start(start) && Runs(start, before + steps, s');
  }

  lemma {:induction false} RunsOnward(s: State, steps: seq<Step>, s1: State, more: seq<Step>, s2: State)
    requires Runs(s, steps, s1) && Runs(s1, more, s2)
    ensures Runs(s, steps + more, s2)
    decreases |steps|
  {
    hide Do, Enabled;
    if steps == [] {
      assert steps + more == more;
    } else {
      RunsOnward(Do(s, steps[0]), steps[1..], s1, more, s2);
      assert (steps + more)[0] == steps[0] && (steps + more)[1..] == steps[1..] + more;
    }
  }

  /** A receiver stops at bytes that are no frame, and after one frame that it finds nobody to hand to. */
  lemma ReceiverStops(lib: Library, c: Conn, d: Direction)
    requires CanReceive(lib, c, d)
    ensures ParseFrame(lib, d, c.cell, SourceOf(c, d).unread).Err? ==>
              !SourceOf(ReceiveOn(lib, c, d), d).open && LaneOf(ReceiveOn(lib, c, d), d) == LaneOf(c, d)
    ensures LaneOf(c, d).phase.Dead? ==> !SourceOf(ReceiveOn(lib, c, d), d).open
    ensures ParseFrame(lib, d, c.cell, SourceOf(c, d).unread).Ok? && !LaneOf(c, d).phase.Dead? ==>
              SourceOf(ReceiveOn(lib, c, d), d).open
  {
    hide ParseFrame;
  }

  /** A sender stops exactly at a frame that cannot be written, and counts it as not sent. */
  lemma SenderStops(lib: Library, c: Conn, d: Direction)
    requires CanTransmit(c, d)
    ensures var sink, sink' := SinkOf(c, d), SinkOf(TransmitOn(lib, c, d), d);
            && (!sink'.open <==> WriteFrame(lib, c.cell, Channel(c, d, true)[sink.sent].frame).Err?)
            && (!sink'.open ==> sink'.sent == sink.sent && sink'.written == sink.written)
  {
    hide WriteFrame;
  }

  /** A receiver or sender that stopped neither reads nor writes again. */
  lemma {:induction false} StoppedStays(s: State, steps: seq<Step>, s': State, c: nat, d: Direction)
    requires Runs(s, steps, s') && c < |s.conns|
    ensures c < |s'.conns|
    ensures !SourceOf(s.conns[c], d).open ==>
              !SourceOf(s'.conns[c], d).open && LaneOf(s'.conns[c], d).received == LaneOf(s.conns[c], d).received
    ensures !SinkOf(s.conns[c], d).open ==> SinkOf(s'.conns[c], d) == SinkOf(s.conns[c], d)
    decreases |steps|
  {
    hide Do, StepOn, EnabledOn;
    if steps != [] {
      var step := steps[0];
      StepChanges(s, step);
      if !step.Open? && !step.Replace? && step.c == c {
        StoppedStep(s, step, d);
      }
      StoppedStays(Do(s, step), steps[1..], s', c, d);
    }
  }

  lemma StoppedStep(s: State, step: Step, d: Direction)
    requires !step.Open? && !step.Replace? && step.c < |s.conns| && EnabledOn(s, step)
    ensures var c, c' := s.conns[step.c], StepOn(s, step);
            && (!SourceOf(c, d).open ==>
                  !SourceOf(c', d).open && LaneOf(c', d).received == LaneOf(c, d).received)
            && (!SinkOf(c, d).open ==> SinkOf(c', d) == SinkOf(c, d))
  {
    hide Locked, ParseFrame, WriteFrame, StartupCell, IsRegister, Within;
    if Inside(step) {
      InsideStep(s, step);
      WithinSame(s.conns[step.c], StepOn(s, step), d);
    }
  }

  lemma WithinSame(c: Conn, c': Conn, d: Direction)
    requires Within(c, c')
    ensures SourceOf(c, d) == SourceOf(c', d) && SinkOf(c, d) == SinkOf(c', d)
    ensures LaneOf(c, d).received == LaneOf(c', d).received
  {
  }

  // ------------------------------------------------------- rules that never crash

  predicate SafeGuard(g: RuleGuard, d: Direction) {
    !g.poisoned && SafeRules(g.rules, d)
  }

  predicate SafeReplacement(step: Step, d: Direction) {
    Replaces(step, d) ==> SafeRules(step.rules, d)
  }

  lemma LoadedOnWay(s: State, c: nat, d: Direction, toss: nat -> bool)
    requires Inv(s) && WireInv(s) && c < |s.conns| && LaneOf(s.conns[c], d).phase.Loaded?
    ensures OnWay(ContextOf(s, c, d, toss), d)
  {
    hide LanesOk, FlagsOk, ParseFrames, WriteFrames;
    var l := LaneOf(s.conns[c], d);
    LanesOf(s.conns[c], d);
    assert WireOk(s.lib, s.conns[c]);
    AllDirected(s.lib, d, s.conns[c].cell, |l.received|, SourceOf(s.conns[c], d).stream, |l.fates|);
  }

  /** Under safe rules a loaded frame can be decided about and cannot crash. */
  lemma SafeLane(s: State, c: nat, d: Direction, toss: nat -> bool)
    requires Inv(s) && WireInv(s) && c < |s.conns| && LaneOf(s.conns[c], d).phase.Loaded?
    requires SafeGuard(RulesOf(s, d), d)
    ensures Enabled(s, Apply(c, d, toss)) && !Enabled(s, Crash(c, d, toss))
    ensures SafeGuard(AfterLock(RulesOf(s, d), ContextOf(s, c, d, toss)), d)
  {
    hide Inv, WireInv, Scan, SafeRules;
    LoadedOnWay(s, c, d, toss);
    SafeScan(RulesOf(s, d).rules, ContextOf(s, c, d, toss), d);
  }

  lemma SafeStep(s: State, step: Step, d: Direction)
    requires Inv(s) && WireInv(s) && Enabled(s, step) && SafeGuard(RulesOf(s, d), d)
    requires SafeReplacement(step, d)
    ensures SafeGuard(RulesOf(Do(s, step), d), d) && !(step.Crash? && step.d == d)
  {
    hide Inv, WireInv, Scan, Do, SafeRules, CanReceive;
    StepChangesRules(s, step, d);
    if Scans(step) && step.d == d {
      SafeLane(s, step.c, d, step.toss);
    }
  }

  lemma {:induction false} SafeRun(s: State, steps: seq<Step>, s': State, d: Direction)
    requires Inv(s) && WireInv(s) && Runs(s, steps, s') && SafeGuard(RulesOf(s, d), d) && !AnyDead(s, d)
    requires forall i :: 0 <= i < |steps| ==> SafeReplacement(steps[i], d)
    ensures Inv(s') && WireInv(s') && SafeGuard(RulesOf(s', d), d) && !AnyDead(s', d)
    decreases |steps|
  {
    hide Inv, WireInv, Do, Enabled, SafeGuard, AnyDead, SafeReplacement;
    if steps != [] {
      SafeStep(s, steps[0], d);
      StepKeepsInv(s, steps[0]);
      StepKeepsWireInv(s, steps[0]);
      StepDies(s, steps[0], d);
      SafeRun(Do(s, steps[0]), steps[1..], s', d);
    }
  }

  /** If all rules that a direction ever has are safe, no processor dies and every loaded frame is decided about. */
  lemma SafeRulesNeverCrash(start: State, steps: seq<Step>, s: State, d: Direction)
    requires Start(start) && Runs(start, steps, s) && SafeRules(RulesOf(start, d).rules, d)
    requires forall i :: 0 <= i < |steps| ==> SafeReplacement(steps[i], d)
    ensures !RulesOf(s, d).poisoned && !AnyDead(s, d)
    ensures forall c, toss :: 0 <= c < |s.conns| && LaneOf(s.conns[c], d).phase.Loaded? ==>
              Enabled(s, Apply(c, d, toss)) && !Enabled(s, Crash(c, d, toss))
  {
    hide Runs, SafeRules, Enabled, LanesOk, FlagsOk, WireOk;
    SafeRun(start, steps, s, d);
    forall c, toss | 0 <= c < |s.conns| && LaneOf(s.conns[c], d).phase.Loaded?
      ensures Enabled(s, Apply(c, d, toss)) && !Enabled(s, Crash(c, d, toss))
    {
      SafeLane(s, c, d, toss);
    }
  }

  // ------------------------------------------------------------ rules that crash

  /** Some run crashes a node whose direction has these rules throughout. */
  ghost predicate CanCrash(rules: seq<Rule>, d: Direction) {
    exists start: State, s: State ::
      Start(start) && RulesOf(start, d).rules == rules && Leads(start, s) && RulesOf(s, d).poisoned
  }

  lemma SafeCannotCrash(rules: seq<Rule>, d: Direction)
    requires SafeRules(rules, d)
    ensures !CanCrash(rules, d)
  {
    hide Runs, SafeRules;
    if CanCrash(rules, d) {
      var start: State, s: State :|
        Start(start) && RulesOf(start, d).rules == rules && Leads(start, s) && RulesOf(s, d).poisoned;
      var steps: seq<Step> :| (forall i :: 0 <= i < |steps| ==> !steps[i].Replace?) && Runs(start, steps, s);
      SafeRulesNeverCrash(start, steps, s, d);
    }
  }

  /** An unsafe leaf as the first condition crashes on the first frame, whatever follows it. */
  lemma UnsafeLeafCrashes(c: Condition, r: Reaction, more: seq<Rule>, d: Direction)
    requires IsLeaf(c) && !SafeLeaf(c, d)
    ensures CanCrash([Rule(c, r)] + more, d)
  {
    hide Leads, LeafValue, SafeLeaf, ParseFrame, WriteFrame;
    var guard, none := RuleGuard([Rule(c, r)] + more, false), RuleGuard([], false);
    var start := State(SOME_LIBRARY, [], if d.FromDriver? then guard else none, if d.FromDriver? then none else guard);
    LeadsNowhere(start);
    var s := Follow(start, start, Open);
    s := Deliver(start, s, 0, d);
    var toss := _ => false;
    var ctx := ContextOf(s, 0, d, toss);
    LeafPanicsExactlyWhen(c, ctx, d);
    ScanStep(Rule(c, r), more, ctx);
    s := Follow(start, s, Crash(0, d, toss));
  }

  /** A single rule with a leaf for its condition can crash a node exactly when the leaf is not safe. */
  lemma LeafCrashesExactlyWhen(c: Condition, r: Reaction, d: Direction)
    requires IsLeaf(c)
    ensures CanCrash([Rule(c, r)], d) <==> !SafeLeaf(c, d)
  {
    hide CanCrash, SafeLeaf;
    if SafeLeaf(c, d) {
      SafeCannotCrash([Rule(c, r)], d);
    } else {
      UnsafeLeafCrashes(c, r, [], d);
      assert [Rule(c, r)] + [] == [Rule(c, r)];
    }
  }

  const ONLY_FIRST := And(ConnectionSeqNo(0), OnResponse(Ready))

  /** The second connection can only crash, on a frame for which its rules alone would do nothing. */
  lemma CrashSpreads(r: Reaction) returns (s: State)
    ensures Reachable(s) && |s.conns| == 2
    ensures s.conns[0].requests.phase.Dead? && s.conns[1].requests.phase.Loaded?
    ensures forall toss :: Enabled(s, Crash(1, FromDriver, toss)) && !Enabled(s, Apply(1, FromDriver, toss))
    ensures forall toss :: Scan([Rule(ONLY_FIRST, r)], ContextOf(s, 1, FromDriver, toss)).found == Unmatched
  {
    hide Reachable, Leads, ParseFrame, WriteFrame;
    var rules := [Rule(ONLY_FIRST, r)];
    var start := State(SOME_LIBRARY, [], RuleGuard(rules, false), RuleGuard([], false));
    LeadsNowhere(start);
    s := Follow(start, start, Open);
    s := Follow(start, s, Open);
    s := Deliver(start, s, 0, FromDriver);
    s := Follow(start, s, Crash(0, FromDriver, _ => false));
    s := Deliver(start, s, 1, FromDriver);
    LeadsReachable(start, s);
    forall toss: nat -> bool
      ensures Scan(rules, ContextOf(s, 1, FromDriver, toss)).found == Unmatched
    {
      OnlyFirst(r, ContextOf(s, 1, FromDriver, toss));
    }
  }

  lemma OnlyFirst(r: Reaction, ctx: EvaluationContext)
    requires ctx.connectionSeqNo != 0
    ensures Scan([Rule(ONLY_FIRST, r)], ctx).found == Unmatched
  {
    assert Eval(ONLY_FIRST, ctx).value == Some(false);
  }
}
