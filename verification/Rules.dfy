/**
  Rules and the scan that looks for the first one to apply. Models the rule loop
  of scylla-proxy/src/proxy.rs and the rules and reactions of
  scylla-proxy/src/actions.rs. A delay says only that an action happens later.
 */
module Rules {
  import opened Wire
  import opened Frames
  import opened Conditions

  datatype Action = Action(processor: Option<Frame -> Frame>)

  datatype Reaction = Reaction(toAddressee: Option<Action>, toSender: Option<Action>, dropConnection: bool)

  datatype Rule = Rule(condition: Condition, reaction: Reaction)

  const NOOP := Reaction(Some(Action(None)), None, false)
  const DROP_FRAME := Reaction(None, None, false)

  // ------------------------------------------------------------------ scanning

  datatype Found = Matched(index: nat) | Unmatched | Panicked

  datatype Scanned = Scanned(rules: seq<Rule>, found: Found)

  function Evaluate(rule: Rule, ctx: EvaluationContext): (r: Rule) {
    rule.(condition := Eval(rule.condition, ctx).condition)
  }

  function Scan(rules: seq<Rule>, ctx: EvaluationContext): (r: Scanned)
    ensures |r.rules| == |rules| && (r.found.Matched? ==> r.found.index < |rules|)
  {
    if rules == [] then Scanned([], Unmatched)
    else
      var head := Evaluate(rules[0], ctx);
      match Eval(rules[0].condition, ctx).value
      case None => Scanned([head] + rules[1..], Panicked)
      case Some(applies) =>
        if applies then Scanned([head] + rules[1..], Matched(0))
        else After([head], Scan(rules[1..], ctx))
  }

  /** The result of a scan that had passed `done` before. */
  function After(done: seq<Rule>, rest: Scanned): (r: Scanned) {
    Scanned(done + rest.rules,
            if rest.found.Matched? then Matched(|done| + rest.found.index) else rest.found)
  }

  lemma AfterAfter(done: seq<Rule>, head: Rule, rest: Scanned)
    ensures After(done, After([head], rest)) == After(done + [head], rest)
  {
    assert done + ([head] + rest.rules) == done + [head] + rest.rules;
  }

  lemma ScanStep(head: Rule, tail: seq<Rule>, ctx: EvaluationContext)
    ensures Scan([head] + tail, ctx)
            == match Eval(head.condition, ctx).value
               case None => Scanned([Evaluate(head, ctx)] + tail, Panicked)
               case Some(applies) =>
                 if applies then Scanned([Evaluate(head, ctx)] + tail, Matched(0))
                 else After([Evaluate(head, ctx)], Scan(tail, ctx))
  {
    hide Eval;
    var rules := [head] + tail;
    assert rules[0] == head && rules[1..] == tail;
  }

  lemma ScanFromStart(rules: seq<Rule>, ctx: EvaluationContext)
    ensures rules[0..] == rules && After([], Scan(rules[0..], ctx)) == Scan(rules, ctx)
  {
    hide Scan;
    assert rules[0..] == rules;
    assert [] + Scan(rules, ctx).rules == Scan(rules, ctx).rules;
  }

  lemma ScanFrom(rules: seq<Rule>, done: seq<Rule>, i: nat, ctx: EvaluationContext)
    requires |done| == i < |rules|
    ensures var done', tail := done + [Evaluate(rules[i], ctx)], rules[i + 1..];
            After(done, Scan(rules[i..], ctx))
            == match Eval(rules[i].condition, ctx).value
               case None => Scanned(done' + tail, Panicked)
               case Some(applies) =>
                 if applies then Scanned(done' + tail, Matched(i)) else After(done', Scan(tail, ctx))
  {
    hide Eval, Scan, Evaluate;
    var head, tail := Evaluate(rules[i], ctx), rules[i + 1..];
    assert rules[i..] == [rules[i]] + tail;
    ScanStep(rules[i], tail, ctx);
    AfterAfter(done, head, Scan(tail, ctx));
    assert done + ([head] + tail) == done + [head] + tail;
  }

  lemma ReplaceAt(done: seq<Rule>, rules: seq<Rule>, i: nat, r: Rule)
    requires |done| == i < |rules|
    ensures (done + rules[i..])[i] == rules[i]
    ensures (done + rules[i..])[i := r] == (done + [r]) + rules[i + 1..]
  {
  }

  lemma ScanEnds(done: seq<Rule>, ctx: EvaluationContext)
    ensures After(done, Scan([], ctx)) == Scanned(done, Unmatched)
  {
    assert done + [] == done;
  }

  /** The rules behind their mutex, and whether a panic of its holder poisoned it. */
  datatype RuleGuard = RuleGuard(rules: seq<Rule>, poisoned: bool)

  /** A poisoned lock panics before the first rule is looked at. */
  function Locked(g: RuleGuard, ctx: EvaluationContext): (r: Scanned)
    ensures |r.rules| == |g.rules| && (r.found.Matched? ==> r.found.index < |g.rules|)
  {
    if g.poisoned then Scanned(g.rules, Panicked) else Scan(g.rules, ctx)
  }

  function AfterLock(g: RuleGuard, ctx: EvaluationContext): (g': RuleGuard) {
    RuleGuard(Locked(g, ctx).rules, Locked(g, ctx).found.Panicked?)
  }

  /** The rules that all connections of a node share behind a mutex. */
  class RuleList {
    var rules: seq<Rule>
    var poisoned: bool

    constructor (rules: seq<Rule>)
      ensures View() == RuleGuard(rules, false)
    {
      this.rules, poisoned := rules, false;
    }

    function View(): (g: RuleGuard)
      reads this
    {
      RuleGuard(rules, poisoned)
    }

    /** `change_request_rules` and `change_response_rules`: fails on a poisoned lock. */
    method Replace(rules: seq<Rule>) returns (ok: bool)
      modifies this
      ensures ok == !old(poisoned)
      ensures View() == if ok then RuleGuard(rules, false) else old(View())
    {
      ok := !poisoned;
      if ok {
        this.rules := rules;
      }
    }

    /** The loop over the rules, which stops at the first that applies, or panics with the lock held. */
    method FindRule(ctx: EvaluationContext) returns (found: Found)
      modifies this
      ensures View() == AfterLock(old(View()), ctx) && found == Locked(old(View()), ctx).found
    {
      hide Scan;
      if poisoned {
        return Panicked;
      }
      found := ScanRules(ctx);
      poisoned := found.Panicked?;
    }

    method ScanRules(ctx: EvaluationContext) returns (found: Found)
      modifies this`rules
      ensures Scanned(rules, found) == Scan(old(rules), ctx)
    {
      hide *;
      ghost var before, done := rules, [];
      ScanFromStart(before, ctx);
      for i := 0 to |rules|
        invariant |done| == i <= |before| && rules == done + before[i..]
        invariant After(done, Scan(before[i..], ctx)) == Scan(before, ctx)
      {
        ScanFrom(before, done, i, ctx);
        var value := Eval(rules[i].condition, ctx).value;
        ReplaceAt(done, before, i, Evaluate(rules[i], ctx));
        rules := rules[i := Evaluate(rules[i], ctx)];
        done := done + [Evaluate(before[i], ctx)];
        if value.None? {
          return Panicked;
        } else if value.value {
          return Matched(i);
        }
      }
      ScanEnds(done, ctx);
      assert before[|before|..] == [];
      found := Unmatched;
    }
  }

  // ------------------------------------------------------ what a scan touches

  /** A rule applies iff it is the first whose condition holds; later rules are left alone. */
  lemma {:induction false} ScanMeaning(rules: seq<Rule>, ctx: EvaluationContext, i: nat)
    requires i < |rules|
    ensures var r := Scan(rules, ctx);
            var reached := forall j :: 0 <= j < i ==> Eval(rules[j].condition, ctx).value == Some(false);
            && (r.found == Matched(i) <==> reached && Eval(rules[i].condition, ctx).value == Some(true))
            && r.rules[i] == if reached then Evaluate(rules[i], ctx) else rules[i]
  {
    hide Eval;
    if i > 0 {
      ScanMeaning(rules[1..], ctx, i - 1);
      assert (forall j :: 0 <= j < i ==> Eval(rules[j].condition, ctx).value == Some(false))
        <==> && Eval(rules[0].condition, ctx).value == Some(false)
             && forall j :: 0 <= j < i - 1 ==> Eval(rules[1..][j].condition, ctx).value == Some(false) by {
        assert forall j :: 0 < j < i ==> rules[j] == rules[1..][j - 1];
      }
    }
  }

  function RulesBudget(rules: seq<Rule>): (n: nat) {
    if rules == [] then 0 else Budget(rules[0].condition) + RulesBudget(rules[1..])
  }

  /** The positive counters that a scan reaches, in the rules it evaluates. */
  function ScanHits(rules: seq<Rule>, ctx: EvaluationContext): (n: nat) {
    if rules == [] then 0
    else
      var c := rules[0].condition;
      Hits(Counters(c), Reached(c, ctx))
      + (if Eval(c, ctx).value == Some(false) then ScanHits(rules[1..], ctx) else 0)
  }

  ghost predicate SameShapes(rules: seq<Rule>, rules': seq<Rule>) {
    && |rules| == |rules'|
    && forall i :: 0 <= i < |rules| ==>
         && Shape(rules[i].condition) == Shape(rules'[i].condition)
         && rules[i].reaction == rules'[i].reaction
  }

  lemma {:induction false} ScanKeeps(rules: seq<Rule>, ctx: EvaluationContext)
    ensures SameShapes(rules, Scan(rules, ctx).rules)
    ensures RulesBudget(Scan(rules, ctx).rules) + ScanHits(rules, ctx) == RulesBudget(rules)
  {
    hide Eval, Shape, Counters, Reached;
    if rules != [] {
      var c, after := rules[0].condition, Scan(rules, ctx).rules;
      EvalKeepsShape(c, ctx);
      EvalBudget(c, ctx);
      ScanKeeps(rules[1..], ctx);
      assert after[0] == Evaluate(rules[0], ctx);
      assert after[1..] == if Eval(c, ctx).value == Some(false) then Scan(rules[1..], ctx).rules else rules[1..];
      assert forall i :: 0 < i < |rules| ==> rules[i] == rules[1..][i - 1] && after[i] == after[1..][i - 1];
    }
  }

  // ------------------------------------------------------- conditions that panic

  /** A leaf about frames of this direction, with a pattern that is not empty, or a probability in [0, 1]. */
  predicate SafeLeaf(c: Condition, d: Direction) {
    match c
    case OnRequest(_) => d.FromDriver?
    case OnResponse(_) => d.FromCluster?
    case BodyContainsCaseSensitive(p) => p != []
    case BodyContainsCaseInsensitive(p) => p != []
    case RandomWithProbability(p, _) => 0.0 <= p <= 1.0
    case _ => true
  }

  predicate SafeCondition(c: Condition, d: Direction) {
    match c
    case Not(e) => SafeCondition(e, d)
    case And(c1, c2) => SafeCondition(c1, d) && SafeCondition(c2, d)
    case Or(c1, c2) => SafeCondition(c1, d) && SafeCondition(c2, d)
    case _ => SafeLeaf(c, d)
  }

  predicate SafeRules(rules: seq<Rule>, d: Direction) {
    forall i :: 0 <= i < |rules| ==> SafeCondition(rules[i].condition, d)
  }

  predicate OnWay(ctx: EvaluationContext, d: Direction) {
    ctx.opcode.Request? == d.FromDriver?
  }

  /** A leaf panics on every frame of the direction, or on none. */
  lemma LeafPanicsExactlyWhen(c: Condition, ctx: EvaluationContext, d: Direction)
    requires IsLeaf(c) && OnWay(ctx, d)
    ensures LeafValue(c, ctx).None? <==> !SafeLeaf(c, d)
  {
    hide Contains, ContainsIgnoreCase;
  }

  lemma {:induction false} SafeEval(c: Condition, ctx: EvaluationContext, d: Direction)
    requires SafeCondition(c, d) && OnWay(ctx, d)
    ensures Eval(c, ctx).value.Some? && SafeCondition(Eval(c, ctx).condition, d)
  {
    hide LeafValue, OnWay;
    if c.Not? {
      SafeEval(c.inner, ctx, d);
    } else if c.And? || c.Or? {
      SafeEval(c.first, ctx, d);
      SafeEval(c.second, ctx, d);
    } else if IsLeaf(c) {
      LeafPanicsExactlyWhen(c, ctx, d);
    }
  }

  lemma {:induction false} SafeScan(rules: seq<Rule>, ctx: EvaluationContext, d: Direction)
    requires SafeRules(rules, d) && OnWay(ctx, d)
    ensures !Scan(rules, ctx).found.Panicked? && SafeRules(Scan(rules, ctx).rules, d)
  {
    hide Eval, SafeCondition, OnWay;
    if rules != [] {
      SafeEval(rules[0].condition, ctx, d);
      SafeScan(rules[1..], ctx, d);
    }
  }

  // ----------------------------------------------------------------- whole runs

  /** The rules after scans in this order, whichever connections they come from. */
  function AfterScans(rules: seq<Rule>, ctxs: seq<EvaluationContext>): (r: seq<Rule>)
    ensures |r| == |rules|
    decreases |ctxs|
  {
    if ctxs == [] then rules else AfterScans(Scan(rules, ctxs[0]).rules, ctxs[1..])
  }

  function RunHits(rules: seq<Rule>, ctxs: seq<EvaluationContext>): (n: nat)
    decreases |ctxs|
  {
    if ctxs == [] then 0 else ScanHits(rules, ctxs[0]) + RunHits(Scan(rules, ctxs[0]).rules, ctxs[1..])
  }

  /** Whole runs keep the shapes and spend exactly what their scans reach. */
  lemma {:induction false} RunKeeps(rules: seq<Rule>, ctxs: seq<EvaluationContext>)
    ensures SameShapes(rules, AfterScans(rules, ctxs))
    ensures RulesBudget(AfterScans(rules, ctxs)) + RunHits(rules, ctxs) == RulesBudget(rules)
    decreases |ctxs|
  {
    hide Scan, Shape, RulesBudget;
    if ctxs != [] {
      ScanKeeps(rules, ctxs[0]);
      RunKeeps(Scan(rules, ctxs[0]).rules, ctxs[1..]);
    }
  }

  // ----------------------------------------------------------- a window of frames

  /** Drops frames until the first counter runs out, passes them until the second does. */
  function WindowRules(until: nat, from: nat): (rules: seq<Rule>) {
    [Rule(Not(TrueForLimitedTimes(until)), DROP_FRAME),
     Rule(Not(TrueForLimitedTimes(from)), NOOP),
     Rule(True, DROP_FRAME)]
  }

  lemma WindowScan(until: nat, from: nat, ctx: EvaluationContext)
    ensures Scan(WindowRules(until, from), ctx)
            == if until == 0 then Scanned(WindowRules(0, from), Matched(0))
               else if from == 0 then Scanned(WindowRules(until - 1, 0), Matched(1))
               else Scanned(WindowRules(until - 1, from - 1), Matched(2))
  {
    var rules := WindowRules(until, from);
    assert rules == [rules[0]] + ([rules[1]] + ([rules[2]] + []));
    ScanStep(rules[0], [rules[1]] + ([rules[2]] + []), ctx);
    ScanStep(rules[1], [rules[2]] + [], ctx);
    ScanStep(rules[2], [], ctx);
    LimitedNot(until, ctx);
    LimitedNot(from, ctx);
  }

  lemma LimitedNot(n: nat, ctx: EvaluationContext)
    ensures Eval(Not(TrueForLimitedTimes(n)), ctx)
            == Evaluated(Not(TrueForLimitedTimes(Minus(n, 1))), Some(n == 0))
  {
  }

  function Minus(a: nat, b: nat): (r: nat) {
    if a < b then 0 else a - b
  }

  lemma {:induction false} WindowAfter(until: nat, from: nat, ctxs: seq<EvaluationContext>)
    requires from <= until
    ensures AfterScans(WindowRules(until, from), ctxs)
            == WindowRules(Minus(until, |ctxs|), Minus(from, |ctxs|))
  {
    hide Scan, WindowRules;
    if ctxs != [] {
      WindowScan(until, from, ctxs[0]);
      WindowAfter(Minus(until, 1), Minus(from, 1), ctxs[1..]);
    }
  }

  /** With counters `a + b` and `a` the `i`-th frame is passed iff `a <= i < a + b`. */
  lemma WindowPasses(a: nat, b: nat, ctxs: seq<EvaluationContext>, i: nat)
    requires i < |ctxs|
    ensures var rules := AfterScans(WindowRules(a + b, a), ctxs[..i]);
            var found := Scan(rules, ctxs[i]).found;
            && found.Matched? && rules[found.index].reaction in {NOOP, DROP_FRAME}
            && (rules[found.index].reaction == NOOP <==> a <= i < a + b)
  {
    hide Scan, AfterScans;
    WindowAfter(a + b, a, ctxs[..i]);
    WindowScan(Minus(a + b, i), Minus(a, i), ctxs[i]);
  }
}
