/**
  The conditions of proxy rules, whose counters are used up by evaluating them.
  Models `Condition` of scylla-proxy/src/actions.rs. The outcome of a random
  condition is an oracle over the leaves of the tree; a panic is a missing value.
 */
module Conditions {
  import opened Wire
  import opened Opcodes

  datatype Condition =
    | True
    | False
    | Not(inner: Condition)
    | And(first: Condition, second: Condition)
    | Or(first: Condition, second: Condition)
    | ConnectionSeqNo(no: nat)
    | OnRequest(request: RequestOpcode)
    | OnResponse(response: ResponseOpcode)
    | BodyContainsCaseSensitive(pattern: bytes)
    | BodyContainsCaseInsensitive(pattern: bytes)
    | RandomWithProbability(probability: real, leaf: nat)
    | TrueForLimitedTimes(times: nat)
    | ConnectionRegisteredAnyEvent

  datatype EvaluationContext = EvaluationContext(
    connectionSeqNo: nat,
    connectionHasEvents: bool,
    opcode: FrameOpcode,
    frameBody: bytes,
    toss: nat -> bool)

  // ---------------------------------------------------------------- evaluation

  function ToLower(b: byte): (l: byte) {
    if 0x41 <= b <= 0x5a then b + 0x20 else b
  }

  predicate EqIgnoreAsciiCase(a: bytes, b: bytes) {
    |a| == |b| && forall i :: 0 <= i < |a| ==> ToLower(a[i]) == ToLower(b[i])
  }

  predicate Contains(body: bytes, pattern: bytes) {
    exists i :: 0 <= i <= |body| - |pattern| && Window(body, i, |pattern|) == pattern
  }

  predicate ContainsIgnoreCase(body: bytes, pattern: bytes) {
    exists i :: 0 <= i <= |body| - |pattern|
                && Utf8Valid(Window(body, i, |pattern|))
                && EqIgnoreAsciiCase(Window(body, i, |pattern|), pattern)
  }

  function Window(body: bytes, i: nat, n: nat): (w: bytes)
    requires i + n <= |body|
  {
    body[i..i + n]
  }

  /** The pattern stands somewhere in the body. */
  lemma ContainsMeaning(body: bytes, pattern: bytes)
    ensures Contains(body, pattern) <==> exists before: bytes, after: bytes :: body == before + pattern + after
  {
    if Contains(body, pattern) {
      var i :| 0 <= i <= |body| - |pattern| && Window(body, i, |pattern|) == pattern;
      assert body == body[..i] + pattern + body[i + |pattern|..];
    }
    if exists before: bytes, after: bytes :: body == before + pattern + after {
      var before: bytes, after: bytes :| body == before + pattern + after;
      assert Window(body, |before|, |pattern|) == pattern;
    }
  }

  lemma SameOrLetters(a: byte, b: byte)
    requires ToLower(a) == ToLower(b)
    ensures a == b || (a < 0x80 && b < 0x80)
  {
  }

  lemma {:induction false} CaseKeepsUtf8From(a: bytes, b: bytes, i: nat)
    requires EqIgnoreAsciiCase(a, b) && i <= |a| && Utf8From(a, i)
    ensures Utf8From(b, i)
    decreases |a| - i
  {
    if i < |a| {
      forall j | 0 <= j < |a|
        ensures a[j] == b[j] || (a[j] < 0x80 && b[j] < 0x80)
      {
        SameOrLetters(a[j], b[j]);
      }
      assert ScalarLength(a, i) == ScalarLength(b, i);
      CaseKeepsUtf8From(a, b, i + ScalarLength(a, i));
    }
  }

  /** For a valid pattern the check that a window is valid never matters. */
  lemma ContainsIgnoreCaseMeaning(body: bytes, pattern: bytes)
    requires Utf8Valid(pattern)
    ensures ContainsIgnoreCase(body, pattern)
            <==> exists before: bytes, found: bytes, after: bytes ::
                   body == before + found + after && EqIgnoreAsciiCase(found, pattern)
  {
    hide Utf8From, EqIgnoreAsciiCase;
    if ContainsIgnoreCase(body, pattern) {
      var i :| 0 <= i <= |body| - |pattern| && EqIgnoreAsciiCase(Window(body, i, |pattern|), pattern);
      var found := Window(body, i, |pattern|);
      assert body == body[..i] + found + body[i + |pattern|..];
    }
    if exists before: bytes, found: bytes, after: bytes ::
        body == before + found + after && EqIgnoreAsciiCase(found, pattern) {
      var before: bytes, found: bytes, after: bytes :|
        body == before + found + after && EqIgnoreAsciiCase(found, pattern);
      SameCaseBack(found, pattern);
      CaseKeepsUtf8From(pattern, found, 0);
      assert Window(body, |before|, |pattern|) == found;
    }
  }

  lemma SameCaseBack(a: bytes, b: bytes)
    requires EqIgnoreAsciiCase(a, b)
    ensures |a| == |b| && EqIgnoreAsciiCase(b, a)
  {
  }

  predicate IsLeaf(c: Condition) {
    !c.Not? && !c.And? && !c.Or? && !c.TrueForLimitedTimes?
  }

  /** A mismatched opcode kind, an empty pattern and an impossible probability panic. */
  function LeafValue(c: Condition, ctx: EvaluationContext): (v: Option<bool>)
    requires IsLeaf(c)
  {
    match c
    case True => Some(true)
    case False => Some(false)
    case ConnectionSeqNo(no) => Some(no == ctx.connectionSeqNo)
    case OnRequest(op) => if ctx.opcode.Request? then Some(op == ctx.opcode.request) else None
    case OnResponse(op) => if ctx.opcode.Response? then Some(op == ctx.opcode.response) else None
    case BodyContainsCaseSensitive(p) => if p == [] then None else Some(Contains(ctx.frameBody, p))
    case BodyContainsCaseInsensitive(p) =>
      if !Utf8Valid(p) then Some(false)
      else if p == [] then None
      else Some(ContainsIgnoreCase(ctx.frameBody, p))
    case RandomWithProbability(p, leaf) => if 0.0 <= p <= 1.0 then Some(ctx.toss(leaf)) else None
    case ConnectionRegisteredAnyEvent => Some(ctx.connectionHasEvents)
  }

  /** The value of a condition and what evaluating it leaves of it. */
  datatype Evaluated = Evaluated(condition: Condition, value: Option<bool>)

  function Eval(c: Condition, ctx: EvaluationContext): (r: Evaluated) {
    match c
    case Not(d) =>
      var r := Eval(d, ctx);
      Evaluated(Not(r.condition), if r.value.Some? then Some(!r.value.value) else None)
    case And(c1, c2) =>
      var r1 := Eval(c1, ctx);
      if r1.value != Some(true) then Evaluated(And(r1.condition, c2), r1.value)
      else
        var r2 := Eval(c2, ctx);
        Evaluated(And(r1.condition, r2.condition), r2.value)
    case Or(c1, c2) =>
      var r1 := Eval(c1, ctx);
      if r1.value != Some(false) then Evaluated(Or(r1.condition, c2), r1.value)
      else
        var r2 := Eval(c2, ctx);
        Evaluated(Or(r1.condition, r2.condition), r2.value)
    case TrueForLimitedTimes(n) => Evaluated(TrueForLimitedTimes(if n > 0 then n - 1 else 0), Some(n > 0))
    case _ => Evaluated(c, LeafValue(c, ctx))
  }

  // ------------------------------------------------------------------ counters

  /** The condition without its counters. */
  function Shape(c: Condition): (s: Condition) {
    match c
    case Not(d) => Not(Shape(d))
    case And(c1, c2) => And(Shape(c1), Shape(c2))
    case Or(c1, c2) => Or(Shape(c1), Shape(c2))
    case TrueForLimitedTimes(_) => TrueForLimitedTimes(0)
    case _ => c
  }

  /** The counters, from left to right. */
  function Counters(c: Condition): (ns: seq<nat>) {
    match c
    case Not(d) => Counters(d)
    case And(c1, c2) => Counters(c1) + Counters(c2)
    case Or(c1, c2) => Counters(c1) + Counters(c2)
    case TrueForLimitedTimes(n) => [n]
    case _ => []
  }

  /** Which counters short-circuiting reaches. */
  function Reached(c: Condition, ctx: EvaluationContext): (rs: seq<bool>)
    ensures |rs| == |Counters(c)|
  {
    match c
    case Not(d) => Reached(d, ctx)
    case And(c1, c2) =>
      Reached(c1, ctx) + (if Eval(c1, ctx).value == Some(true) then Reached(c2, ctx) else Unreached(|Counters(c2)|))
    case Or(c1, c2) =>
      Reached(c1, ctx) + (if Eval(c1, ctx).value == Some(false) then Reached(c2, ctx) else Unreached(|Counters(c2)|))
    case TrueForLimitedTimes(_) => [true]
    case _ => []
  }

  function Unreached(n: nat): (rs: seq<bool>)
    ensures |rs| == n && forall i :: 0 <= i < n ==> !rs[i]
  {
    seq(n, _ => false)
  }

  /** The reached counters that are not yet zero go down by one. */
  function Spend(ns: seq<nat>, rs: seq<bool>): (ns': seq<nat>)
    requires |ns| == |rs|
    ensures |ns'| == |ns|
    ensures forall i :: 0 <= i < |ns| ==> ns'[i] == if rs[i] && ns[i] > 0 then ns[i] - 1 else ns[i]
  {
    seq(|ns|, i requires 0 <= i < |ns| => if rs[i] && ns[i] > 0 then ns[i] - 1 else ns[i])
  }

  lemma SpendConcat(ns: seq<nat>, rs: seq<bool>, ns': seq<nat>, rs': seq<bool>)
    requires |ns| == |rs| && |ns'| == |rs'|
    ensures Spend(ns + ns', rs + rs') == Spend(ns, rs) + Spend(ns', rs')
    ensures Spend(ns', Unreached(|ns'|)) == ns'
  {
  }

  /** Evaluation keeps the shape. */
  lemma {:induction false} EvalKeepsShape(c: Condition, ctx: EvaluationContext)
    ensures Shape(Eval(c, ctx).condition) == Shape(c)
  {
    match c
    case Not(d) => EvalKeepsShape(d, ctx);
    case And(c1, c2) =>
      EvalKeepsShape(c1, ctx);
      EvalKeepsShape(c2, ctx);
    case Or(c1, c2) =>
      EvalKeepsShape(c1, ctx);
      EvalKeepsShape(c2, ctx);
    case _ =>
  }

  /** Evaluation spends exactly the counters it reaches. */
  lemma {:induction false} EvalSpends(c: Condition, ctx: EvaluationContext)
    ensures Counters(Eval(c, ctx).condition) == Spend(Counters(c), Reached(c, ctx))
  {
    if c.Not? {
      EvalSpends(c.inner, ctx);
    } else if c.And? || c.Or? {
      EvalSpends(c.first, ctx);
      EvalSpends(c.second, ctx);
      BothSpend(c, ctx);
    }
  }

  lemma BothSpend(c: Condition, ctx: EvaluationContext)
    requires c.And? || c.Or?
    requires Counters(Eval(c.first, ctx).condition) == Spend(Counters(c.first), Reached(c.first, ctx))
    requires Counters(Eval(c.second, ctx).condition) == Spend(Counters(c.second), Reached(c.second, ctx))
    ensures Counters(Eval(c, ctx).condition) == Spend(Counters(c), Reached(c, ctx))
  {
    var ns, ns' := Counters(c.first), Counters(c.second);
    var on := Eval(c.first, ctx).value == Some(c.And?);
    var rs' := if on then Reached(c.second, ctx) else Unreached(|ns'|);
    SpendConcat(ns, Reached(c.first, ctx), ns', rs');
    assert Counters(c) == ns + ns' && Reached(c, ctx) == Reached(c.first, ctx) + rs';
    assert Counters(Eval(c, ctx).condition) == Spend(ns, Reached(c.first, ctx)) + Spend(ns', rs');
  }

  function Sum(ns: seq<nat>): (s: nat) {
    if ns == [] then 0 else ns[0] + Sum(ns[1..])
  }

  /** The reached counters that were not zero. */
  function Hits(ns: seq<nat>, rs: seq<bool>): (n: nat)
    requires |ns| == |rs|
  {
    if ns == [] then 0 else (if rs[0] && ns[0] > 0 then 1 else 0) + Hits(ns[1..], rs[1..])
  }

  lemma {:induction false} SpendSum(ns: seq<nat>, rs: seq<bool>)
    requires |ns| == |rs|
    ensures Sum(Spend(ns, rs)) + Hits(ns, rs) == Sum(ns)
  {
    if ns != [] {
      SpendSum(ns[1..], rs[1..]);
      assert Spend(ns, rs)[1..] == Spend(ns[1..], rs[1..]);
    }
  }

  function Budget(c: Condition): (n: nat) {
    Sum(Counters(c))
  }

  /** The budget drops by the number of positive counters reached. */
  lemma EvalBudget(c: Condition, ctx: EvaluationContext)
    ensures Budget(Eval(c, ctx).condition) + Hits(Counters(c), Reached(c, ctx)) == Budget(c)
  {
    EvalSpends(c, ctx);
    SpendSum(Counters(c), Reached(c, ctx));
  }

  /** Without counters evaluation changes nothing. */
  lemma {:induction false} CounterFree(c: Condition, ctx: EvaluationContext)
    requires Counters(c) == []
    ensures Eval(c, ctx).condition == c
  {
    match c
    case Not(d) => CounterFree(d, ctx);
    case And(c1, c2) =>
      assert Counters(c1) <= Counters(c);
      CounterFree(c1, ctx);
      CounterFree(c2, ctx);
    case Or(c1, c2) =>
      assert Counters(c1) <= Counters(c);
      CounterFree(c1, ctx);
      CounterFree(c2, ctx);
    case _ =>
  }

  // -------------------------------------------------------------- all and any

  /** Each further condition is put in front of the ones before it. */
  function AllOf(cs: seq<Condition>): (c: Condition) {
    if cs == [] then True
    else if |cs| == 1 then cs[0]
    else And(cs[|cs| - 1], AllOf(cs[..|cs| - 1]))
  }

  function AnyOf(cs: seq<Condition>): (c: Condition) {
    if cs == [] then False
    else if |cs| == 1 then cs[0]
    else Or(cs[|cs| - 1], AnyOf(cs[..|cs| - 1]))
  }

  method All(cs: seq<Condition>) returns (c: Condition)
    ensures c == AllOf(cs)
  {
    if cs == [] {
      return True;
    }
    c := cs[0];
    for i := 1 to |cs|
      invariant c == AllOf(cs[..i])
    {
      c := And(cs[i], c);
      assert cs[..i + 1][..i] == cs[..i];
    }
    assert cs[..|cs|] == cs;
  }

  method Any(cs: seq<Condition>) returns (c: Condition)
    ensures c == AnyOf(cs)
  {
    if cs == [] {
      return False;
    }
    c := cs[0];
    for i := 1 to |cs|
      invariant c == AnyOf(cs[..i])
    {
      c := Or(cs[i], c);
      assert cs[..i + 1][..i] == cs[..i];
    }
    assert cs[..|cs|] == cs;
  }

  /** Evaluates the last condition first and stops at the first whose value is not `go`. */
  datatype Folded = Folded(conditions: seq<Condition>, value: Option<bool>)

  function FoldBack(cs: seq<Condition>, ctx: EvaluationContext, go: bool): (r: Folded)
    ensures |r.conditions| == |cs|
  {
    if cs == [] then Folded([], Some(go))
    else
      var init, last := cs[..|cs| - 1], Eval(cs[|cs| - 1], ctx);
      if last.value != Some(go) then Folded(init + [last.condition], last.value)
      else
        var rest := FoldBack(init, ctx, go);
        Folded(rest.conditions + [last.condition], rest.value)
  }

  /** `all` is a last-to-first short-circuiting conjunction, counters included. */
  lemma {:induction false} AllIsFold(cs: seq<Condition>, ctx: EvaluationContext)
    ensures var f := FoldBack(cs, ctx, true);
            Eval(AllOf(cs), ctx) == Evaluated(AllOf(f.conditions), f.value)
  {
    if cs == [] {
    } else {
      var n := |cs| - 1;
      AllIsFold(cs[..n], ctx);
      var f, rest := FoldBack(cs, ctx, true), FoldBack(cs[..n], ctx, true);
      assert f.conditions[..n] == if Eval(cs[n], ctx).value == Some(true) then rest.conditions else cs[..n];
      assert f.conditions[n] == Eval(cs[n], ctx).condition;
    }
  }

  lemma {:induction false} AnyIsFold(cs: seq<Condition>, ctx: EvaluationContext)
    ensures var f := FoldBack(cs, ctx, false);
            Eval(AnyOf(cs), ctx) == Evaluated(AnyOf(f.conditions), f.value)
  {
    if cs == [] {
    } else {
      var n := |cs| - 1;
      AnyIsFold(cs[..n], ctx);
      var f, rest := FoldBack(cs, ctx, false), FoldBack(cs[..n], ctx, false);
      assert f.conditions[..n] == if Eval(cs[n], ctx).value == Some(false) then rest.conditions else cs[..n];
      assert f.conditions[n] == Eval(cs[n], ctx).condition;
    }
  }

  /** Where no condition panics the fold has the value `go` exactly if every condition does. */
  lemma {:induction false} FoldValue(cs: seq<Condition>, ctx: EvaluationContext, go: bool)
    requires forall i :: 0 <= i < |cs| ==> Eval(cs[i], ctx).value.Some?
    ensures FoldBack(cs, ctx, go).value.Some?
    ensures FoldBack(cs, ctx, go).value == Some(go)
            <==> forall i :: 0 <= i < |cs| ==> Eval(cs[i], ctx).value == Some(go)
  {
    if cs != [] {
      FoldValue(cs[..|cs| - 1], ctx, go);
    }
  }

  /** The conditions after the one that stops the fold are evaluated, the ones before it are not. */
  lemma {:induction false} FoldReaches(cs: seq<Condition>, ctx: EvaluationContext, go: bool, i: nat)
    requires i < |cs|
    ensures FoldBack(cs, ctx, go).conditions[i]
            == if forall j :: i < j < |cs| ==> Eval(cs[j], ctx).value == Some(go)
               then Eval(cs[i], ctx).condition else cs[i]
  {
    var n := |cs| - 1;
    if i < n {
      FoldReaches(cs[..n], ctx, go, i);
      if Eval(cs[n], ctx).value == Some(go) {
        assert (forall j :: i < j < |cs| ==> Eval(cs[j], ctx).value == Some(go))
          <==> (forall j :: i < j < n ==> Eval(cs[..n][j], ctx).value == Some(go));
      }
    }
  }

  lemma AllIsConjunction(cs: seq<Condition>, ctx: EvaluationContext)
    requires forall i :: 0 <= i < |cs| ==> Eval(cs[i], ctx).value.Some?
    ensures Eval(AllOf(cs), ctx).value
            == Some(forall i :: 0 <= i < |cs| ==> Eval(cs[i], ctx).value == Some(true))
  {
    AllIsFold(cs, ctx);
    FoldValue(cs, ctx, true);
    var v := FoldBack(cs, ctx, true).value.value;
    assert v <==> forall i :: 0 <= i < |cs| ==> Eval(cs[i], ctx).value == Some(true);
  }

  lemma AnyIsDisjunction(cs: seq<Condition>, ctx: EvaluationContext)
    requires forall i :: 0 <= i < |cs| ==> Eval(cs[i], ctx).value.Some?
    ensures Eval(AnyOf(cs), ctx).value
            == Some(exists i :: 0 <= i < |cs| && Eval(cs[i], ctx).value == Some(true))
  {
    AnyIsFold(cs, ctx);
    FoldValue(cs, ctx, false);
    var v := FoldBack(cs, ctx, false).value.value;
    assert !v <==> forall i :: 0 <= i < |cs| ==> Eval(cs[i], ctx).value == Some(false);
    assert v <==> exists i :: 0 <= i < |cs| && Eval(cs[i], ctx).value == Some(true);
  }

  // ------------------------------------------------------- evaluation in place

  datatype NodeKind = Leaf(condition: Condition) | Counter | Negation | Conjunction | Disjunction

  /** A node of a boxed condition tree; only the counters ever change. */
  class Node {
    const kind: NodeKind
    var times: nat
    const left: Node?
    const right: Node?
    ghost const repr: set<Node>

    constructor (kind: NodeKind, times: nat, left: Node?, right: Node?)
      ensures this.kind == kind && this.times == times && this.left == left && this.right == right
      ensures repr == {this} + (if left != null then left.repr else {}) + (if right != null then right.repr else {})
    {
      this.kind, this.times := kind, times;
      this.left, this.right := left, right;
      repr := {this} + (if left != null then left.repr else {}) + (if right != null then right.repr else {});
    }

    ghost predicate Valid()
      decreases repr
    {
      && this in repr
      && (kind.Leaf? ==> IsLeaf(kind.condition))
      && (kind.Negation? ==> left != null && Owns(left) && left.Valid())
      && (kind.Conjunction? || kind.Disjunction? ==>
            && left != null && right != null && Owns(left) && Owns(right)
            && left.Valid() && right.Valid() && left.repr !! right.repr)
    }

    ghost predicate Owns(child: Node) {
      child.repr < repr && this !in child.repr
    }

    ghost function Tree(): (c: Condition)
      requires Valid()
      reads repr
      decreases repr
    {
      match kind
      case Leaf(c) => c
      case Counter => TrueForLimitedTimes(times)
      case Negation => Not(left.Tree())
      case Conjunction => And(left.Tree(), right.Tree())
      case Disjunction => Or(left.Tree(), right.Tree())
    }

    method Evaluate(ctx: EvaluationContext) returns (value: Option<bool>)
      requires Valid()
      modifies repr
      ensures Evaluated(Tree(), value) == Eval(old(Tree()), ctx)
      decreases repr
    {
      if kind.Leaf? {
        return LeafValue(kind.condition, ctx);
      } else if kind.Counter? {
        value := Some(times > 0);
        if times > 0 {
          times := times - 1;
        }
      } else {
        var first := left.Evaluate(ctx);
        if kind.Negation? {
          return if first.Some? then Some(!first.value) else None;
        } else if first != Some(kind.Conjunction?) {
          return first;
        }
        value := right.Evaluate(ctx);
      }
    }
  }

  method Build(c: Condition) returns (n: Node)
    ensures n.Valid() && n.Tree() == c && fresh(n.repr)
  {
    if c.Not? {
      var d := Build(c.inner);
      n := new Node(Negation, 0, d, null);
    } else if c.And? || c.Or? {
      var c1 := Build(c.first);
      var c2 := Build(c.second);
      n := new Node(if c.And? then Conjunction else Disjunction, 0, c1, c2);
    } else if c.TrueForLimitedTimes? {
      n := new Node(Counter, c.times, null, null);
    } else {
      n := new Node(Leaf(c), 0, null, null);
    }
  }
}
