/**
  What conditions say about frames. A condition without counters and random parts
  has a truth value that depends only on the connection, its event flag and the
  frame; evaluation computes it and leaves the condition as it was. Models
  `Condition::eval` of scylla-proxy/src/actions.rs.
 */
module ConditionMeaning {
  import opened Wire
  import opened Opcodes
  import opened Frames
  import opened Conditions
  import opened Rules

  predicate IsLetter(b: byte) {
    0x41 <= b <= 0x5a || 0x61 <= b <= 0x7a
  }

  /** The same byte, or the two cases of an ASCII letter. */
  predicate SameLetter(a: byte, b: byte) {
    a == b || (IsLetter(a) && IsLetter(b) && (a == b + 0x20 || b == a + 0x20))
  }

  predicate SameUpToCase(a: bytes, b: bytes) {
    |a| == |b| && forall i :: 0 <= i < |a| ==> SameLetter(a[i], b[i])
  }

  ghost predicate Occurs(p: bytes, body: bytes) {
    exists before: bytes, after: bytes :: body == before + p + after
  }

  ghost predicate OccursUpToCase(p: bytes, body: bytes) {
    exists before: bytes, found: bytes, after: bytes :: body == before + found + after && SameUpToCase(found, p)
  }

  /** No counters and no random parts. */
  predicate Steady(c: Condition) {
    match c
    case Not(e) => Steady(e)
    case And(c1, c2) => Steady(c1) && Steady(c2)
    case Or(c1, c2) => Steady(c1) && Steady(c2)
    case RandomWithProbability(_, _) => false
    case TrueForLimitedTimes(_) => false
    case _ => true
  }

  /** What a condition says of a frame on connection `no`. */
  ghost predicate Holds(c: Condition, no: nat, events: bool, opcode: FrameOpcode, body: bytes)
    requires Steady(c)
  {
    match c
    case True => true
    case False => false
    case Not(e) => !Holds(e, no, events, opcode, body)
    case And(c1, c2) => Holds(c1, no, events, opcode, body) && Holds(c2, no, events, opcode, body)
    case Or(c1, c2) => Holds(c1, no, events, opcode, body) || Holds(c2, no, events, opcode, body)
    case ConnectionSeqNo(n) => n == no
    case OnRequest(op) => opcode == Request(op)
    case OnResponse(op) => opcode == Response(op)
    case BodyContainsCaseSensitive(p) => Occurs(p, body)
    case BodyContainsCaseInsensitive(p) => Utf8Valid(p) && OccursUpToCase(p, body)
    case ConnectionRegisteredAnyEvent => events
  }

  // --------------------------------------------------------------------- leaves

  lemma LetterCase(a: byte, b: byte)
    ensures ToLower(a) == ToLower(b) <==> SameLetter(a, b)
  {
  }

  lemma CaseMeaning(a: bytes, b: bytes)
    ensures EqIgnoreAsciiCase(a, b) <==> SameUpToCase(a, b)
  {
    hide ToLower, SameLetter;
    if |a| == |b| {
      forall i | 0 <= i < |a|
        ensures ToLower(a[i]) == ToLower(b[i]) <==> SameLetter(a[i], b[i])
      {
        LetterCase(a[i], b[i]);
      }
    }
  }

  lemma InsensitiveMeaning(body: bytes, p: bytes)
    requires Utf8Valid(p)
    ensures ContainsIgnoreCase(body, p) <==> OccursUpToCase(p, body)
  {
    hide Utf8Valid, ContainsIgnoreCase, EqIgnoreAsciiCase, SameUpToCase;
    ContainsIgnoreCaseMeaning(body, p);
    if ContainsIgnoreCase(body, p) {
      var before: bytes, found: bytes, after: bytes :|
        body == before + found + after && EqIgnoreAsciiCase(found, p);
      CaseMeaning(found, p);
    }
    if OccursUpToCase(p, body) {
      var before: bytes, found: bytes, after: bytes :| body == before + found + after && SameUpToCase(found, p);
      CaseMeaning(found, p);
    }
  }

  lemma LeafMeaning(c: Condition, ctx: EvaluationContext, d: Direction)
    requires IsLeaf(c) && Steady(c) && SafeLeaf(c, d) && OnWay(ctx, d)
    ensures LeafValue(c, ctx)
            == Some(Holds(c, ctx.connectionSeqNo, ctx.connectionHasEvents, ctx.opcode, ctx.frameBody))
  {
    hide Contains, ContainsIgnoreCase, OccursUpToCase, Utf8Valid;
    if c.BodyContainsCaseSensitive? {
      ContainsMeaning(ctx.frameBody, c.pattern);
    } else if c.BodyContainsCaseInsensitive? && Utf8Valid(c.pattern) {
      InsensitiveMeaning(ctx.frameBody, c.pattern);
    }
  }

  /** Evaluation gives what the condition says, and changes nothing. */
  lemma {:induction false} EvalMeaning(c: Condition, ctx: EvaluationContext, d: Direction)
    requires Steady(c) && SafeCondition(c, d) && OnWay(ctx, d)
    ensures Eval(c, ctx)
            == Evaluated(c, Some(Holds(c, ctx.connectionSeqNo, ctx.connectionHasEvents, ctx.opcode, ctx.frameBody)))
  {
    hide LeafValue, OnWay, SafeLeaf, Occurs, OccursUpToCase, Utf8Valid;
    if c.Not? {
      EvalMeaning(c.inner, ctx, d);
    } else if c.And? || c.Or? {
      EvalMeaning(c.first, ctx, d);
      EvalMeaning(c.second, ctx, d);
    } else {
      LeafMeaning(c, ctx, d);
    }
  }

  /** Each leaf as a statement about the frame. */
  lemma LeavesSay(ctx: EvaluationContext, request: RequestOpcode, response: ResponseOpcode, p: bytes, no: nat)
    ensures ctx.opcode.Request? ==> Eval(OnRequest(request), ctx).value == Some(ctx.opcode == Request(request))
    ensures ctx.opcode.Response? ==> Eval(OnResponse(response), ctx).value == Some(ctx.opcode == Response(response))
    ensures p != [] ==>
              Eval(BodyContainsCaseSensitive(p), ctx).value
              == Some(exists before: bytes, after: bytes :: ctx.frameBody == before + p + after)
    ensures p != [] && Utf8Valid(p) ==>
              Eval(BodyContainsCaseInsensitive(p), ctx).value
              == Some(exists before: bytes, found: bytes, after: bytes ::
                        ctx.frameBody == before + found + after && SameUpToCase(found, p))
    ensures !Utf8Valid(p) ==> Eval(BodyContainsCaseInsensitive(p), ctx).value == Some(false)
    ensures Eval(ConnectionRegisteredAnyEvent, ctx).value == Some(ctx.connectionHasEvents)
    ensures Eval(ConnectionSeqNo(no), ctx).value == Some(no == ctx.connectionSeqNo)
  {
    hide Contains, ContainsIgnoreCase, Utf8Valid, SameUpToCase;
    ContainsMeaning(ctx.frameBody, p);
    if Utf8Valid(p) {
      InsensitiveMeaning(ctx.frameBody, p);
    }
  }

  /** Negation, conjunction and disjunction where nothing panics. */
  lemma ConnectivesSay(c1: Condition, c2: Condition, ctx: EvaluationContext)
    requires Eval(c1, ctx).value.Some? && Eval(c2, ctx).value.Some?
    ensures var a, b := Eval(c1, ctx).value.value, Eval(c2, ctx).value.value;
            && Eval(Not(c1), ctx).value == Some(!a)
            && Eval(And(c1, c2), ctx).value == Some(a && b)
            && Eval(Or(c1, c2), ctx).value == Some(a || b)
  {
  }

  /** A random condition is what its coin says, a counter is true while it lasts. */
  lemma CoinsAndCounters(p: real, leaf: nat, n: nat, ctx: EvaluationContext)
    ensures 0.0 <= p <= 1.0 ==>
              Eval(RandomWithProbability(p, leaf), ctx)
              == Evaluated(RandomWithProbability(p, leaf), Some(ctx.toss(leaf)))
    ensures Eval(TrueForLimitedTimes(n + 1), ctx) == Evaluated(TrueForLimitedTimes(n), Some(true))
    ensures Eval(TrueForLimitedTimes(0), ctx) == Evaluated(TrueForLimitedTimes(0), Some(false))
  {
  }

  // ---------------------------------------------------------------------- rules

  predicate SteadyRules(rules: seq<Rule>) {
    forall i :: 0 <= i < |rules| ==> Steady(rules[i].condition)
  }

  /** The reaction of the first rule that holds. */
  ghost function FirstHolding(rules: seq<Rule>, no: nat, events: bool, opcode: FrameOpcode, body: bytes)
    : (r: Option<Reaction>)
    requires SteadyRules(rules)
    ensures r.None? <==> forall i :: 0 <= i < |rules| ==> !Holds(rules[i].condition, no, events, opcode, body)
    ensures r.Some? ==>
              exists i :: 0 <= i < |rules| && FirstAt(rules, i, no, events, opcode, body)
                          && r.value == rules[i].reaction
  {
    if rules == [] then None
    else if Holds(rules[0].condition, no, events, opcode, body) then
      assert FirstAt(rules, 0, no, events, opcode, body);
      Some(rules[0].reaction)
    else
      var r := FirstHolding(rules[1..], no, events, opcode, body);
      assert r.Some? ==>
        exists i :: 0 <= i < |rules| && FirstAt(rules, i, no, events, opcode, body) && r.value == rules[i].reaction by {
        if r.Some? {
          var i :| 0 <= i < |rules[1..]| && FirstAt(rules[1..], i, no, events, opcode, body)
                   && r.value == rules[1..][i].reaction;
          assert forall j :: 0 < j <= i + 1 ==> rules[j] == rules[1..][j - 1];
          assert FirstAt(rules, i + 1, no, events, opcode, body);
        }
      }
      r
  }

  ghost predicate FirstAt(rules: seq<Rule>, i: nat, no: nat, events: bool, opcode: FrameOpcode, body: bytes)
    requires SteadyRules(rules) && i < |rules|
  {
    && Holds(rules[i].condition, no, events, opcode, body)
    && forall j :: 0 <= j < i ==> !Holds(rules[j].condition, no, events, opcode, body)
  }

  /** A scan of steady and safe rules finds the first that holds and leaves all as they were. */
  lemma {:induction false} ScanMeans(rules: seq<Rule>, ctx: EvaluationContext, d: Direction)
    requires SteadyRules(rules) && SafeRules(rules, d) && OnWay(ctx, d)
    ensures var scan := Scan(rules, ctx);
            && scan.rules == rules && !scan.found.Panicked?
            && (if scan.found.Matched? then Some(rules[scan.found.index].reaction) else None)
               == FirstHolding(rules, ctx.connectionSeqNo, ctx.connectionHasEvents, ctx.opcode, ctx.frameBody)
  {
    hide Eval, Holds, Steady, SafeCondition, OnWay;
    if rules != [] {
      EvalMeaning(rules[0].condition, ctx, d);
      ScanMeans(rules[1..], ctx, d);
      assert rules == [rules[0]] + rules[1..];
    }
  }

  /** A single rule applies exactly to the frames of which it holds. */
  lemma OnlyRule(c: Condition, r: Reaction, no: nat, events: bool, opcode: FrameOpcode, body: bytes)
    requires Steady(c)
    ensures FirstHolding([Rule(c, r)], no, events, opcode, body)
            == if Holds(c, no, events, opcode, body) then Some(r) else None
  {
    hide Holds;
    assert [Rule(c, r)][1..] == [];
  }
}
