/**
  What a node with steady rules decides about every frame: over all runs the fate of
  a frame is a function of the frame itself, its connection and, for requests, the
  requests before it. Models the processors of scylla-proxy/src/proxy.rs.
 */
module ProxyDecisions {
  import opened Wire
  import opened Opcodes
  import opened Frames
  import opened Conditions
  import opened Rules
  import opened ConditionMeaning
  import opened Proxy
  import opened ProxySafety
  import opened ProxyWire
  import opened ProxyRuns
  import opened ProxyCrashes

  /** Some run leads there in which the direction has these rules throughout. */
  ghost predicate ReachableUnder(s: State, rules: seq<Rule>, d: Direction) {
    exists start: State, steps: seq<Step> ::
      Start(start) && RulesOf(start, d).rules == rules && !AnyReplaces(steps, d) && Runs(start, steps, s)
  }

  function FateOf(applied: Option<Reaction>): (f: Fate) {
    if applied.Some? then Consumed(applied.value) else Forwarded
  }

  /** The requests up to the `i`-th include a REGISTER. */
  predicate RegisteredBy(received: seq<Frame>, i: nat)
    requires i < |received|
  {
    exists j :: 0 <= j <= i && received[j].opcode == Request(Register)
  }

  /** A request sees the flag as the requests up to it say, a response as it was at some time. */
  ghost predicate DecidedAt(rules: seq<Rule>, no: nat, d: Direction, l: Lane, i: nat)
    requires SteadyRules(rules) && i < |l.fates| <= |l.received|
  {
    var f := l.received[i];
    if d.FromDriver? then
      l.fates[i] == FateOf(FirstHolding(rules, no, RegisteredBy(l.received, i), f.opcode, f.body))
    else
      exists events :: l.fates[i] == FateOf(FirstHolding(rules, no, events, f.opcode, f.body))
  }

  ghost predicate Decided(rules: seq<Rule>, no: nat, d: Direction, l: Lane)
    requires SteadyRules(rules)
  {
    |l.fates| <= |l.received| && forall i :: 0 <= i < |l.fates| ==> DecidedAt(rules, no, d, l, i)
  }

  ghost predicate AllDecided(s: State, rules: seq<Rule>, d: Direction)
    requires SteadyRules(rules)
  {
    && RulesOf(s, d) == RuleGuard(rules, false)
    && forall c :: 0 <= c < |s.conns| ==> Decided(rules, c, d, LaneOf(s.conns[c], d))
  }

  // ------------------------------------------------------------------- one step

  /** A step that decides nothing about the lane may receive more frames. */
  lemma StaysDecided(rules: seq<Rule>, no: nat, d: Direction, l: Lane, l': Lane)
    requires SteadyRules(rules) && Decided(rules, no, d, l)
    requires l'.fates == l.fates && l.received <= l'.received
    ensures Decided(rules, no, d, l')
  {
    hide FirstHolding;
    assert forall i :: 0 <= i < |l.received| ==> l'.received[i] == l.received[i];
    forall i | 0 <= i < |l'.fates|
      ensures DecidedAt(rules, no, d, l', i)
    {
      assert DecidedAt(rules, no, d, l, i);
      assert RegisteredBy(l'.received, i) == RegisteredBy(l.received, i);
    }
  }

  /** One more decision, made as the frame in hand asks. */
  lemma OneMoreDecided(rules: seq<Rule>, no: nat, d: Direction, l: Lane, l': Lane, fate: Fate, events: bool)
    requires SteadyRules(rules) && Decided(rules, no, d, l) && |l.fates| < |l.received|
    requires l'.received == l.received && l'.fates == l.fates + [fate]
    requires var f := l.received[|l.fates|];
             fate == FateOf(FirstHolding(rules, no, events, f.opcode, f.body))
    requires d.FromDriver? ==> events == RegisteredBy(l.received, |l.fates|)
    ensures Decided(rules, no, d, l')
  {
    hide FirstHolding, RegisteredBy;
    forall i | 0 <= i < |l'.fates|
      ensures DecidedAt(rules, no, d, l', i)
    {
      if i < |l.fates| {
        assert DecidedAt(rules, no, d, l, i);
        assert l'.fates[i] == l.fates[i];
      }
    }
  }

  /** The frame in hand is the one about to get its fate, and requests know the flag it was loaded with. */
  lemma LoadedFrame(c: Conn, d: Direction)
    requires LanesOk(c) && FlagsOk(c) && LaneOf(c, d).phase.Loaded?
    ensures var l := LaneOf(c, d);
            && |l.fates| < |l.received| && l.phase.msg.frame == l.received[|l.fates|]
            && (d.FromDriver? ==> l.phase.hasEvents == RegisteredBy(l.received, |l.fates|))
  {
    hide LanesOk, LaneInv, FirstStartup;
    LanesOf(c, d);
    var l := LaneOf(c, d);
    if d.FromDriver? {
      var n := |l.fates|;
      var taken := l.received[..n + 1];
      assert |l.received| - |l.queue| == n + 1;
      RegisteredMeaning(l.received, n);
    }
  }

  lemma RegisteredMeaning(fs: seq<Frame>, i: nat)
    requires i < |fs|
    ensures AnyRegister(fs[..i + 1]) <==> RegisteredBy(fs, i)
  {
    var taken := fs[..i + 1];
    if AnyRegister(taken) {
      var j :| 0 <= j < |taken| && IsRegister(taken[j]);
      assert fs[j].opcode == Request(Register);
    }
    if RegisteredBy(fs, i) {
      var j :| 0 <= j <= i && fs[j].opcode == Request(Register);
      assert IsRegister(taken[j]);
    }
  }

  lemma ApplyDecides(s: State, c: nat, d: Direction, toss: nat -> bool, rules: seq<Rule>)
    requires Inv(s) && WireInv(s) && c < |s.conns| && LaneOf(s.conns[c], d).phase.Loaded?
    requires SteadyRules(rules) && SafeRules(rules, d) && Decided(rules, c, d, LaneOf(s.conns[c], d))
    ensures var g, ctx := RuleGuard(rules, false), ContextOf(s, c, d, toss);
            && AfterLock(g, ctx) == g
            && Decided(rules, c, d, LaneOf(ApplyOn(s.conns[c], d, ReactionOf(rules, Locked(g, ctx).found)), d))
  {
    hide Scan, FirstHolding, Decided, LanesOk, FlagsOk, WireOk, SteadyRules, SafeRules;
    var ctx := ContextOf(s, c, d, toss);
    var l := LaneOf(s.conns[c], d);
    LoadedOnWay(s, c, d, toss);
    LoadedFrame(s.conns[c], d);
    ScanMeans(rules, ctx, d);
    var applied := ReactionOf(rules, Scan(rules, ctx).found);
    OneMoreDecided(rules, c, d, l, LaneOf(ApplyOn(s.conns[c], d, applied), d), FateOf(applied), l.phase.hasEvents);
  }

  lemma ApplyStep(s: State, c: nat, d: Direction, toss: nat -> bool)
    requires c < |s.conns| && EnabledOn(s, Apply(c, d, toss))
    ensures StepOn(s, Apply(c, d, toss))
            == ApplyOn(s.conns[c], d, ReactionOf(RulesOf(s, d).rules, ScanFor(s, c, d, toss).found))
  {
    hide Locked, ApplyOn;
  }

  lemma DecidedStep(s: State, step: Step, rules: seq<Rule>, d: Direction)
    requires Inv(s) && WireInv(s) && Enabled(s, step) && !Replaces(step, d)
    requires SteadyRules(rules) && SafeRules(rules, d) && AllDecided(s, rules, d)
    ensures AllDecided(Do(s, step), rules, d)
  {
    hide Inv, WireInv, Decided, SteadyRules, SafeRules, StepOn, Do, CanReceive, Scan;
    StepChanges(s, step);
    StepChangesRules(s, step, d);
    if step.Open? {
      NewDecided(rules, |s.conns|, d);
    } else if step.Apply? && step.d == d {
      ApplyDecides(s, step.c, d, step.toss, rules);
      ApplyStep(s, step.c, d, step.toss);
    } else if !step.Replace? {
      StepOnLane(s, step, d);
      StaysDecided(rules, step.c, d, LaneOf(s.conns[step.c], d), LaneOf(StepOn(s, step), d));
      SafeStep(s, step, d);
    }
  }

  lemma NewDecided(rules: seq<Rule>, no: nat, d: Direction)
    requires SteadyRules(rules)
    ensures Decided(rules, no, d, LaneOf(NEW_CONN, d))
  {
  }

  lemma {:induction false} DecidedRun(s: State, steps: seq<Step>, s': State, rules: seq<Rule>, d: Direction)
    requires Inv(s) && WireInv(s) && Runs(s, steps, s') && !AnyReplaces(steps, d)
    requires SteadyRules(rules) && SafeRules(rules, d) && AllDecided(s, rules, d)
    ensures AllDecided(s', rules, d)
    decreases |steps|
  {
    hide Inv, WireInv, Do, Enabled, AllDecided, SteadyRules, SafeRules, AnyReplaces;
    if steps != [] {
      AnyReplacesStep(steps, d);
      DecidedStep(s, steps[0], rules, d);
      StepKeepsInv(s, steps[0]);
      StepKeepsWireInv(s, steps[0]);
      DecidedRun(Do(s, steps[0]), steps[1..], s', rules, d);
    }
  }

  // ------------------------------------------------------------------ theorems

  /** Over all runs under steady and safe rules each frame meets the first rule that holds of it. */
  lemma EveryDecision(s: State, rules: seq<Rule>, d: Direction, c: nat, i: nat)
    requires SteadyRules(rules) && SafeRules(rules, d) && ReachableUnder(s, rules, d)
    requires c < |s.conns| && i < |LaneOf(s.conns[c], d).fates|
    ensures |LaneOf(s.conns[c], d).fates| <= |LaneOf(s.conns[c], d).received|
    ensures DecidedAt(rules, c, d, LaneOf(s.conns[c], d), i)
  {
    hide Runs, SteadyRules, SafeRules, AnyReplaces, DecidedAt, LanesOk, FlagsOk, WireOk;
    var start: State, steps: seq<Step> :|
      Start(start) && RulesOf(start, d).rules == rules && !AnyReplaces(steps, d) && Runs(start, steps, s);
    DecidedRun(start, steps, s, rules, d);
  }

  /** A rule about one request opcode consumes exactly the requests with it. */
  lemma OpcodeRuleDecides(s: State, op: RequestOpcode, r: Reaction, c: nat, i: nat)
    requires ReachableUnder(s, [Rule(OnRequest(op), r)], FromDriver)
    requires c < |s.conns| && i < |s.conns[c].requests.fates|
    ensures |s.conns[c].requests.fates| <= |s.conns[c].requests.received|
    ensures s.conns[c].requests.fates[i]
            == if s.conns[c].requests.received[i].opcode == Request(op) then Consumed(r) else Forwarded
  {
    hide ReachableUnder;
    var rules, f := [Rule(OnRequest(op), r)], s.conns[c].requests;
    EveryDecision(s, rules, FromDriver, c, i);
    OnlyRule(OnRequest(op), r, c, RegisteredBy(f.received, i), f.received[i].opcode, f.received[i].body);
  }

  /** A rule about one response opcode consumes exactly the responses with it. */
  lemma ResponseRuleDecides(s: State, op: ResponseOpcode, r: Reaction, c: nat, i: nat)
    requires ReachableUnder(s, [Rule(OnResponse(op), r)], FromCluster)
    requires c < |s.conns| && i < |s.conns[c].responses.fates|
    ensures |s.conns[c].responses.fates| <= |s.conns[c].responses.received|
    ensures s.conns[c].responses.fates[i]
            == if s.conns[c].responses.received[i].opcode == Response(op) then Consumed(r) else Forwarded
  {
    hide ReachableUnder;
    var l := s.conns[c].responses;
    EveryDecision(s, [Rule(OnResponse(op), r)], FromCluster, c, i);
    forall events
      ensures FirstHolding([Rule(OnResponse(op), r)], c, events, l.received[i].opcode, l.received[i].body)
              == if l.received[i].opcode == Response(op) then Some(r) else None
    {
      OnlyRule(OnResponse(op), r, c, events, l.received[i].opcode, l.received[i].body);
    }
  }

  /** A rule about a pattern consumes exactly the frames whose body has it. */
  lemma BodyRuleDecides(s: State, p: bytes, r: Reaction, d: Direction, c: nat, i: nat)
    requires p != [] && ReachableUnder(s, [Rule(BodyContainsCaseSensitive(p), r)], d)
    requires c < |s.conns| && i < |LaneOf(s.conns[c], d).fates|
    ensures var l := LaneOf(s.conns[c], d);
            && |l.fates| <= |l.received|
            && l.fates[i] == if exists before: bytes, after: bytes :: l.received[i].body == before + p + after
                             then Consumed(r) else Forwarded
  {
    hide ReachableUnder;
    var l, cond := LaneOf(s.conns[c], d), BodyContainsCaseSensitive(p);
    EveryDecision(s, [Rule(cond, r)], d, c, i);
    var f := l.received[i];
    forall events
      ensures FirstHolding([Rule(cond, r)], c, events, f.opcode, f.body) == if Occurs(p, f.body) then Some(r) else None
    {
      OnlyRule(cond, r, c, events, f.opcode, f.body);
    }
  }

  /** A rule about registered events consumes a REGISTER and every request after it on its connection. */
  lemma EventRuleDecides(s: State, r: Reaction, c: nat, i: nat)
    requires ReachableUnder(s, [Rule(ConnectionRegisteredAnyEvent, r)], FromDriver)
    requires c < |s.conns| && i < |s.conns[c].requests.fates|
    ensures |s.conns[c].requests.fates| <= |s.conns[c].requests.received|
    ensures s.conns[c].requests.fates[i]
            == if exists j :: 0 <= j <= i && s.conns[c].requests.received[j].opcode == Request(Register)
               then Consumed(r) else Forwarded
  {
    hide ReachableUnder;
    var l := s.conns[c].requests;
    EveryDecision(s, [Rule(ConnectionRegisteredAnyEvent, r)], FromDriver, c, i);
    OnlyRule(ConnectionRegisteredAnyEvent, r, c, RegisteredBy(l.received, i), l.received[i].opcode, l.received[i].body);
  }

  /** A rule about a connection consumes exactly what comes on it. */
  lemma ConnectionRuleDecides(s: State, no: nat, r: Reaction, d: Direction, c: nat, i: nat)
    requires ReachableUnder(s, [Rule(ConnectionSeqNo(no), r)], d)
    requires c < |s.conns| && i < |LaneOf(s.conns[c], d).fates|
    ensures LaneOf(s.conns[c], d).fates[i] == if c == no then Consumed(r) else Forwarded
  {
    hide ReachableUnder;
    var l, cond := LaneOf(s.conns[c], d), ConnectionSeqNo(no);
    EveryDecision(s, [Rule(cond, r)], d, c, i);
    var f := l.received[i];
    forall events
      ensures FirstHolding([Rule(cond, r)], c, events, f.opcode, f.body) == if c == no then Some(r) else None
    {
      OnlyRule(cond, r, c, events, f.opcode, f.body);
    }
  }
}
