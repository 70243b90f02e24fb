/** Passes over whole expressions: bounded fixpoints, pipelines and presets, what
    they keep of the meaning, and when they change nothing any more. */
module Passes {
  import opened Wrappers
  import opened Exprs
  import opened Rewriting

  // ----- bounded fixpoints and pipelines -----

  datatype Pass =
    | Rewrite(rule: Rule)
    | CommonSubexpressions
    | Fixpoint(pass: Pass, maxIters: int)
    | Pipeline(passes: seq<Pass>)

  function Rank(p: Pass): nat
  {
    if p.Pipeline? then |p.passes| + 1 else 0
  }

  function Run(p: Pass, e: Expr): Expr
    decreases p, Rank(p), 0
  {
    match p
    case Rewrite(rule) => RewriteOnce(rule, e)
    case CommonSubexpressions => e
    case Fixpoint(q, n) => Settle(q, Run(q, e), 1, n)
    case Pipeline(ps) => RunFirst(p, |ps|, e)
  }

  /** The first `n` passes of a pipeline, left to right. */
  function RunFirst(p: Pass, n: nat, e: Expr): Expr
    requires p.Pipeline? && n <= |p.passes|
    decreases p, n, 0
  {
    if n == 0 then e else Run(p.passes[n - 1], RunFirst(p, n - 1, e))
  }

  /** Runs `i` to `n` of a pass, ending early on structural equality. */
  function Settle(p: Pass, cur: Expr, i: int, n: int): Expr
    decreases p, Rank(p) + 1, n - i
  {
    if i >= n then cur
    else
      var next := Run(p, cur);
      if StructuralEqual(next, cur) then next else Settle(p, next, i + 1, n)
  }

  method OptimizeAny(e: Expr, p: Pass, maxIters: int) returns (cur: Expr)
    ensures cur == Run(Fixpoint(p, maxIters), e)
  {
    var max := if maxIters <= 0 then 1 else maxIters;
    cur := Run(p, e);
    var i := 1;
    while i < max
      invariant Settle(p, cur, i, max) == Run(Fixpoint(p, maxIters), e)
    {
      var next := Run(p, cur);
      if StructuralEqual(next, cur) { return next; }
      cur := next;
      i := i + 1;
    }
  }

  function Iterate(p: Pass, k: nat, e: Expr): Expr
  {
    if k == 0 then e else Run(p, Iterate(p, k - 1, e))
  }

  predicate Stable(p: Pass, k: nat, e: Expr)
    requires k >= 1
  {
    StructuralEqual(Iterate(p, k, e), Iterate(p, k - 1, e))
  }

  /** A fixpoint runs its pass at least once and stops at the limit or at the first
      repetition, counting from the second run, that changes nothing. */
  lemma FixpointIterates(p: Pass, e: Expr, n: int) returns (k: nat)
    ensures 1 <= k && (k <= n || k == 1)
    ensures Run(Fixpoint(p, n), e) == Iterate(p, k, e)
    ensures k < n ==> k >= 2 && Stable(p, k, e)
    ensures forall j | 2 <= j < k :: !Stable(p, j, e)
  {
    assert Iterate(p, 1, e) == Run(p, Iterate(p, 0, e));
    k := SettleIterates(p, e, 1, n);
  }

  lemma {:induction false} SettleIterates(p: Pass, e: Expr, i: nat, n: int) returns (k: nat)
    requires i >= 1
    requires forall j | 2 <= j <= i :: !Stable(p, j, e)
    ensures i <= k && (k <= n || k == i)
    ensures Settle(p, Iterate(p, i, e), i, n) == Iterate(p, k, e)
    ensures k < n ==> k >= 2 && Stable(p, k, e)
    ensures forall j | 2 <= j < k :: !Stable(p, j, e)
    decreases n - i
  {
    hide Run, StructuralEqual;
    if i >= n { k := i; }
    else if Stable(p, i + 1, e) { k := i + 1; }
    else { k := SettleIterates(p, e, i + 1, n); }
  }

  // ----- one application is already stable -----

  lemma RewriteTwiceIsOnce(rule: Rule, e: Expr)
    ensures RewriteOnce(rule, RewriteOnce(rule, e)) == RewriteOnce(rule, e)
  {
  }

  lemma {:induction false} SettleOnStable(p: Pass, cur: Expr, i: int, n: int)
    requires Run(p, cur) == cur
    ensures Settle(p, cur, i, n) == cur
    decreases n - i
  {
    if i < n { SettleOnStable(p, cur, i + 1, n); }
  }

  /** So iterating a rule to any limit is one application of it. */
  lemma FixpointIsOnePass(rule: Rule, e: Expr, n: int)
    ensures Run(Fixpoint(Rewrite(rule), n), e) == RewriteOnce(rule, e)
  {
    RewriteTwiceIsOnce(rule, e);
    SettleOnStable(Rewrite(rule), RewriteOnce(rule, e), 1, n);
  }

  /** The limit O2 is given does not matter. */
  lemma O2IsOnePassEach(maxIters: int, e: Expr)
    ensures Run(O2(maxIters), e) == RewriteOnce(StrengthReduction, Run(O1(), e))
  {
    hide RewriteOnce, StructuralEqual;
    var p, o1 := O2(maxIters), Run(O1(), e);
    assert RunFirst(p, 0, e) == e;
    assert RunFirst(p, 1, e) == Run(p.passes[0], e) == o1;
    FixpointIsOnePass(StrengthReduction, o1, maxIters);
    var reduced := RunFirst(p, 2, e);
    assert reduced == Run(p.passes[1], o1) == RewriteOnce(StrengthReduction, o1);
    SettleOnStable(CommonSubexpressions, reduced, 1, maxIters);
    assert RunFirst(p, 3, e) == Run(p.passes[2], reduced);
  }

  // ----- what a variant stops -----

  /** Whatever is not a node passes through every pipeline unchanged. */
  lemma {:induction false} OnlyNodesChange(p: Pass, e: Expr)
    requires !e.Node?
    ensures Run(p, e) == e
    decreases p, Rank(p), 0
  {
    match p
    case Rewrite(_) =>
    case CommonSubexpressions =>
    case Fixpoint(q, n) =>
      OnlyNodesChange(q, e);
      SettleOnStable(q, e, 1, n);
    case Pipeline(ps) => OnlyNodesChangeFirst(p, |ps|, e);
  }

  lemma {:induction false} OnlyNodesChangeFirst(p: Pass, n: nat, e: Expr)
    requires !e.Node? && p.Pipeline? && n <= |p.passes|
    ensures RunFirst(p, n, e) == e
    decreases p, n, 0
  {
    if n > 0 {
      OnlyNodesChangeFirst(p, n - 1, e);
      OnlyNodesChange(p.passes[n - 1], e);
    }
  }

  /** So once a pass has returned a variant, the rest of its pipeline does nothing. */
  lemma {:induction false} VariantsEndPipelines(p: Pass, m: nat, n: nat, e: Expr)
    requires p.Pipeline? && m <= n <= |p.passes| && !RunFirst(p, m, e).Node?
    ensures RunFirst(p, n, e) == RunFirst(p, m, e)
    decreases n
  {
    if m < n {
      VariantsEndPipelines(p, m, n - 1, e);
      OnlyNodesChange(p.passes[n - 1], RunFirst(p, m, e));
    }
  }

  /** A pipeline is the first of its passes that changes a root, if that makes it a variant. */
  lemma FirstChange(p: Pass, k: nat, e: Expr)
    requires p.Pipeline? && k <= |p.passes| && forall i | 0 <= i < k :: Run(p.passes[i], e) == e
    requires k < |p.passes| ==> !Run(p.passes[k], e).Node?
    ensures Run(p, e) == if k < |p.passes| then Run(p.passes[k], e) else e
  {
    UnchangedUpTo(p, k, e);
    if k < |p.passes| { VariantsEndPipelines(p, k + 1, |p.passes|, e); }
  }

  lemma {:induction false} UnchangedUpTo(p: Pass, k: nat, e: Expr)
    requires p.Pipeline? && k <= |p.passes| && forall i | 0 <= i < k :: Run(p.passes[i], e) == e
    ensures RunFirst(p, k, e) == e
  {
    if k > 0 { UnchangedUpTo(p, k - 1, e); }
  }

  /** The roots a rule looks at. */
  predicate Affects(rule: Rule, e: Expr)
  {
    e.Node? &&
    match rule
    case AddZero => e.tag == Add && |e.children| == 2
    case MulIdentity => e.tag == Mul && |e.children| == 2
    case ConstantFold => if e.tag == Neg then |e.children| == 1 else (e.tag == Add || e.tag == Mul) && |e.children| == 2
    case Canonicalize => (e.tag == Add || e.tag == Mul) && |e.children| == 2
    case StrengthReduction => (e.tag == Mul || e.tag == Div) && |e.children| == 2
    case DeadSubtree => false
  }

  lemma OtherRootsStay(rule: Rule, e: Expr)
    requires !Affects(rule, e)
    ensures RewriteOnce(rule, e) == e
  {
  }

  /** Those of the simplifications become variants. */
  lemma RootBecomesVariant(rule: Rule, e: Expr)
    requires Affects(rule, e) && (rule == AddZero || rule == MulIdentity || rule == ConstantFold)
    ensures RewriteOnce(rule, e).Carrier?
  {
  }

  /** What O1 and the presets do with any root: of all their passes only one counts. */
  function DecidingRule(e: Expr): Option<Rule>
  {
    if Affects(AddZero, e) then Some(AddZero)
    else if Affects(MulIdentity, e) then Some(MulIdentity)
    else if Affects(ConstantFold, e) then Some(ConstantFold)
    else None
  }

  /** O1 on a sum is its first pass alone, and on a product its second; every other
      root comes out unchanged. */
  lemma O1AtTheRoot(e: Expr)
    ensures Run(O1(), e) == if Affects(AddZero, e) then RewriteOnce(AddZero, e)
                            else if Affects(MulIdentity, e) then RewriteOnce(MulIdentity, e)
                            else e
  {
    hide RewriteOnce;
    var rule := DecidingRule(e);
    OneRuleEach(rule, e);
    FirstChange(O1(), if rule == Some(AddZero) then 0 else if rule == Some(MulIdentity) then 1 else 4, e);
  }

  /** Each rule before the deciding one leaves the root alone, and that one makes it a variant. */
  lemma OneRuleEach(rule: Option<Rule>, e: Expr)
    requires rule == DecidingRule(e)
    ensures rule != Some(AddZero) ==> RewriteOnce(AddZero, e) == e
    ensures rule != Some(AddZero) && rule != Some(MulIdentity) ==>
      RewriteOnce(MulIdentity, e) == e && RewriteOnce(Canonicalize, e) == e
    ensures rule.None? ==> RewriteOnce(ConstantFold, e) == e
    ensures RewriteOnce(DeadSubtree, e) == e
    ensures rule.Some? ==> RewriteOnce(rule.value, e).Carrier?
  {
    if rule != Some(AddZero) { OtherRootsStay(AddZero, e); }
    if rule != Some(AddZero) && rule != Some(MulIdentity) {
      OtherRootsStay(MulIdentity, e);
      OtherRootsStay(Canonicalize, e);
    }
    if rule.None? { OtherRootsStay(ConstantFold, e); }
    OtherRootsStay(DeadSubtree, e);
    if rule.Some? { RootBecomesVariant(rule.value, e); }
  }

  lemma FixpointsAreOnePass(e: Expr)
    ensures forall rule, n :: Run(Fixpoint(Rewrite(rule), n), e) == RewriteOnce(rule, e)
    ensures forall n :: Run(Fixpoint(CommonSubexpressions, n), e) == e
  {
    forall rule, n ensures Run(Fixpoint(Rewrite(rule), n), e) == RewriteOnce(rule, e) { FixpointIsOnePass(rule, e, n); }
    forall n ensures Run(Fixpoint(CommonSubexpressions, n), e) == e { SettleOnStable(CommonSubexpressions, e, 1, n); }
  }

  /** Every preset level but the identity simplifies a sum, a product and a negation at
      the root by one rule each, and gives every other root back. */
  lemma PresetsAtTheRoot(level: Level, e: Expr)
    ensures Run(Preset(level), e) ==
      if level == Identity then e
      else if Affects(AddZero, e) then RewriteOnce(AddZero, e)
      else if Affects(MulIdentity, e) then RewriteOnce(MulIdentity, e)
      else if Affects(ConstantFold, e) then RewriteOnce(ConstantFold, e)
      else e
  {
    hide RewriteOnce, Affects;
    var rule := DecidingRule(e);
    OneRuleEach(rule, e);
    FixpointsAreOnePass(e);
    var p := Preset(level);
    var fold := if level == Graph then 3 else 2;
    var k := if level == Identity then 0 else if rule == Some(AddZero) then 0 else if rule == Some(MulIdentity) then 1
             else if rule == Some(ConstantFold) then fold else |p.passes|;
    FirstChange(p, k, e);
  }

  // ----- meaning of whole pipelines -----

  /** No pass of it trades arithmetic for shifts. */
  predicate Arithmetic(p: Pass)
  {
    match p
    case Rewrite(rule) => rule != StrengthReduction
    case CommonSubexpressions => true
    case Fixpoint(q, _) => Arithmetic(q)
    case Pipeline(ps) => forall i | 0 <= i < |ps| :: Arithmetic(ps[i])
  }

  /** Any nesting of such passes keeps every defined value, whatever the limits. */
  lemma {:induction false} RunKeepsMeaning(p: Pass, e: Expr, ev: Evaluator)
    requires IntegerEvaluator(ev) && Arithmetic(p) && Evaluate(e, ev).Some?
    ensures Evaluate(Run(p, e), ev) == Evaluate(e, ev)
    decreases p, Rank(p), 0
  {
    match p
    case Rewrite(rule) => RewriteKeepsMeaning(rule, e, ev);
    case CommonSubexpressions =>
    case Fixpoint(q, n) =>
      RunKeepsMeaning(q, e, ev);
      SettleKeepsMeaning(q, Run(q, e), 1, n, ev);
    case Pipeline(ps) => RunFirstKeepsMeaning(p, |ps|, e, ev);
  }

  lemma {:induction false} RunFirstKeepsMeaning(p: Pass, n: nat, e: Expr, ev: Evaluator)
    requires IntegerEvaluator(ev) && Arithmetic(p) && Evaluate(e, ev).Some? && p.Pipeline? && n <= |p.passes|
    ensures Evaluate(RunFirst(p, n, e), ev) == Evaluate(e, ev)
    decreases p, n, 0
  {
    if n > 0 {
      RunFirstKeepsMeaning(p, n - 1, e, ev);
      RunKeepsMeaning(p.passes[n - 1], RunFirst(p, n - 1, e), ev);
    }
  }

  lemma {:induction false} SettleKeepsMeaning(p: Pass, cur: Expr, i: int, n: int, ev: Evaluator)
    requires IntegerEvaluator(ev) && Arithmetic(p) && Evaluate(cur, ev).Some?
    ensures Evaluate(Settle(p, cur, i, n), ev) == Evaluate(cur, ev)
    decreases p, Rank(p) + 1, n - i
  {
    if i < n {
      RunKeepsMeaning(p, cur, ev);
      SettleKeepsMeaning(p, Run(p, cur), i + 1, n, ev);
    }
  }

  function O1(): Pass
  {
    Pipeline([Rewrite(AddZero), Rewrite(MulIdentity), Rewrite(AddZero), Rewrite(Canonicalize)])
  }

  function O2(maxIters: int): Pass
  {
    Pipeline([O1(), Fixpoint(Rewrite(StrengthReduction), maxIters), Fixpoint(CommonSubexpressions, maxIters)])
  }

  datatype Level = Identity | Basic | Graph | Aggressive

  function Preset(level: Level): Pass
  {
    match level
    case Identity => Pipeline([])
    case Basic => Pipeline([Fixpoint(Rewrite(AddZero), 4), Fixpoint(Rewrite(MulIdentity), 4),
                            Fixpoint(Rewrite(ConstantFold), 4)])
    case Graph => Pipeline([Fixpoint(Rewrite(AddZero), 6), Fixpoint(Rewrite(MulIdentity), 6), Rewrite(Canonicalize),
                            Fixpoint(Rewrite(ConstantFold), 6), Fixpoint(CommonSubexpressions, 4)])
    case Aggressive => Pipeline([Fixpoint(Rewrite(AddZero), 8), Fixpoint(Rewrite(MulIdentity), 8),
                                 Fixpoint(Rewrite(ConstantFold), 8), Rewrite(Canonicalize),
                                 Fixpoint(CommonSubexpressions, 6), Rewrite(DeadSubtree)])
  }

  lemma PresetsAreArithmetic(level: Level)
    ensures Arithmetic(O1()) && Arithmetic(Preset(level))
  {
  }

  lemma PresetsStop(level: Level)
    ensures Stops(O1()) == Some(MulIdentity)
    ensures Stops(Preset(level)) == if level == Identity then None else Some(MulIdentity)
  {
    var p, q := O1(), Preset(level);
    StopsSecond(p);
    if level == Identity { assert Stops(q) == StopsFirst(q, 0); } else { StopsSecond(q); }
  }

  lemma StopsSecond(p: Pass)
    requires p.Pipeline? && |p.passes| >= 2
    requires Stops(p.passes[0]).None? && Stops(p.passes[1]).Some?
    ensures Stops(p) == Stops(p.passes[1])
  {
    assert StopsFirst(p, 1) == Stops(p.passes[0]);
    assert StopsFirst(p, 2) == Stops(p.passes[1]);
    StopsEarly(p, 2, |p.passes|);
  }

  lemma {:induction false} StopsEarly(p: Pass, m: nat, n: nat)
    requires p.Pipeline? && m <= n <= |p.passes| && StopsFirst(p, m).Some?
    ensures StopsFirst(p, n) == StopsFirst(p, m)
  {
    if m < n { StopsEarly(p, m, n - 1); }
  }

  /** Exactly when O1 and the presets keep meaning, defined or not. */
  lemma PresetsMeaning(level: Level, e: Expr, ev: Evaluator)
    requires IntegerEvaluator(ev)
    ensures Evaluate(Run(O1(), e), ev) == Evaluate(e, ev) <==>
      Evaluate(e, ev).Some? || !(IsProduct(e) && Collapses(e))
    ensures Evaluate(Run(Preset(level), e), ev) == Evaluate(e, ev) <==>
      Evaluate(e, ev).Some? || !(IsProduct(e) && Collapses(e)) || level == Identity
  {
    hide Run, Evaluate, IntegerEvaluator, Collapses;
    PresetsAreArithmetic(level);
    PresetsStop(level);
    RunMeaning(O1(), e, ev);
    RunMeaning(Preset(level), e, ev);
  }

  // ----- undefined factors in whole pipelines -----

  predicate IsProduct(e: Expr) { e.Node? && e.tag == Mul && |e.children| == 2 }

  /** The first rule of a pass to turn products into variants, which ends the pass. */
  function Stops(p: Pass): Option<Rule>
    decreases p, Rank(p), 0
  {
    match p
    case Rewrite(rule) => if rule == MulIdentity || rule == ConstantFold then Some(rule) else None
    case CommonSubexpressions => None
    case Fixpoint(q, _) => Stops(q)
    case Pipeline(ps) => StopsFirst(p, |ps|)
  }

  function StopsFirst(p: Pass, n: nat): Option<Rule>
    requires p.Pipeline? && n <= |p.passes|
    decreases p, n, 0
  {
    if n == 0 then None
    else if StopsFirst(p, n - 1).Some? then StopsFirst(p, n - 1)
    else Stops(p.passes[n - 1])
  }

  /** What an undefined product may have become: one that behaves the same, or a
      variant that is defined exactly if multiply-identity made it and it collapses. */
  ghost predicate Became(e: Expr, r: Expr, stop: Option<Rule>, ev: Evaluator)
  {
    if stop.None? then IsProduct(r) && Evaluate(r, ev).None? && (Collapses(r) <==> Collapses(e))
    else r.Carrier? && (Evaluate(r, ev).Some? <==> stop == Some(MulIdentity) && Collapses(e))
  }

  lemma SwappedProduct(a: Expr, b: Expr, ev: Evaluator)
    requires IntegerEvaluator(ev) && Evaluate(Node(Mul, [a, b]), ev).None?
    ensures Evaluate(Node(Mul, [b, a]), ev).None?
    ensures Collapses(Node(Mul, [a, b])) <==> Collapses(Node(Mul, [b, a]))
  {
    hide Evaluate, EvaluateBinary, IntegerEvaluator;
    EvaluateNode(Node(Mul, [a, b]), ev);
    EvaluateNode(Node(Mul, [b, a]), ev);
    SumsEvaluate(a, b, ev);
    SumsEvaluate(b, a, ev);
    UndefinedFactor(Node(Mul, [a, b]), ev);
  }

  lemma ProductRewritten(rule: Rule, e: Expr, ev: Evaluator)
    requires IntegerEvaluator(ev) && rule != StrengthReduction && IsProduct(e) && Evaluate(e, ev).None?
    ensures Became(e, RewriteOnce(rule, e), Stops(Rewrite(rule)), ev)
  {
    hide Evaluate, IntegerEvaluator, Transform, Collapses;
    var a, b := e.children[0], e.children[1];
    assert e == Node(Mul, [a, b]);
    TransformBinary(rule, e);
    SwappedProduct(a, b, ev);
    RewriteKeepsMeaning(rule, e, ev);
    if rule == MulIdentity { UndefinedCollapses(e, ev); }
  }

  lemma {:induction false} ProductRun(p: Pass, e: Expr, ev: Evaluator)
    requires IntegerEvaluator(ev) && Arithmetic(p) && IsProduct(e) && Evaluate(e, ev).None?
    ensures Became(e, Run(p, e), Stops(p), ev)
    decreases p, Rank(p), 0
  {
    hide Evaluate, IntegerEvaluator, Collapses, RewriteOnce;
    match p
    case Rewrite(rule) => ProductRewritten(rule, e, ev);
    case CommonSubexpressions =>
    case Fixpoint(q, n) =>
      ProductRun(q, e, ev);
      ProductSettles(q, e, Run(q, e), 1, n, ev);
    case Pipeline(ps) => ProductRunFirst(p, |ps|, e, ev);
  }

  lemma {:induction false} ProductSettles(p: Pass, e: Expr, cur: Expr, i: int, n: int, ev: Evaluator)
    requires IntegerEvaluator(ev) && Arithmetic(p) && Became(e, cur, Stops(p), ev)
    ensures Became(e, Settle(p, cur, i, n), Stops(p), ev)
    decreases p, Rank(p) + 1, n - i
  {
    hide Evaluate, IntegerEvaluator, Collapses, StructuralEqual;
    if Stops(p).Some? {
      OnlyNodesChange(p, cur);
      SettleOnStable(p, cur, i, n);
    } else if i < n {
      ProductRun(p, cur, ev);
      ProductSettles(p, e, Run(p, cur), i + 1, n, ev);
    }
  }

  lemma {:induction false} ProductRunFirst(p: Pass, n: nat, e: Expr, ev: Evaluator)
    requires IntegerEvaluator(ev) && Arithmetic(p) && IsProduct(e) && Evaluate(e, ev).None?
    requires p.Pipeline? && n <= |p.passes|
    ensures Became(e, RunFirst(p, n, e), StopsFirst(p, n), ev)
    decreases p, n, 0
  {
    hide Evaluate, IntegerEvaluator, Collapses;
    if n > 0 {
      ProductRunFirst(p, n - 1, e, ev);
      var r := RunFirst(p, n - 1, e);
      if StopsFirst(p, n - 1).Some? { OnlyNodesChange(p.passes[n - 1], r); }
      else { ProductRun(p.passes[n - 1], r, ev); }
    }
  }

  /** Whatever is not a product keeps its meaning, and does not become one. */
  lemma OtherRewritten(rule: Rule, e: Expr, ev: Evaluator)
    requires IntegerEvaluator(ev) && rule != StrengthReduction && !IsProduct(e)
    ensures Evaluate(RewriteOnce(rule, e), ev) == Evaluate(e, ev) && !IsProduct(RewriteOnce(rule, e))
  {
    hide Evaluate, IntegerEvaluator;
    RewriteKeepsMeaning(rule, e, ev);
  }

  lemma {:induction false} OtherRun(p: Pass, e: Expr, ev: Evaluator)
    requires IntegerEvaluator(ev) && Arithmetic(p) && !IsProduct(e)
    ensures Evaluate(Run(p, e), ev) == Evaluate(e, ev) && !IsProduct(Run(p, e))
    decreases p, Rank(p), 0
  {
    hide Evaluate, IntegerEvaluator, RewriteOnce;
    match p
    case Rewrite(rule) => OtherRewritten(rule, e, ev);
    case CommonSubexpressions =>
    case Fixpoint(q, n) =>
      OtherRun(q, e, ev);
      OtherSettles(q, Run(q, e), 1, n, ev);
    case Pipeline(ps) => OtherRunFirst(p, |ps|, e, ev);
  }

  lemma {:induction false} OtherSettles(p: Pass, cur: Expr, i: int, n: int, ev: Evaluator)
    requires IntegerEvaluator(ev) && Arithmetic(p) && !IsProduct(cur)
    ensures Evaluate(Settle(p, cur, i, n), ev) == Evaluate(cur, ev) && !IsProduct(Settle(p, cur, i, n))
    decreases p, Rank(p) + 1, n - i
  {
    hide Evaluate, IntegerEvaluator, StructuralEqual;
    if i < n {
      OtherRun(p, cur, ev);
      OtherSettles(p, Run(p, cur), i + 1, n, ev);
    }
  }

  lemma {:induction false} OtherRunFirst(p: Pass, n: nat, e: Expr, ev: Evaluator)
    requires IntegerEvaluator(ev) && Arithmetic(p) && !IsProduct(e) && p.Pipeline? && n <= |p.passes|
    ensures Evaluate(RunFirst(p, n, e), ev) == Evaluate(e, ev) && !IsProduct(RunFirst(p, n, e))
    decreases p, n, 0
  {
    hide Evaluate, IntegerEvaluator;
    if n > 0 {
      OtherRunFirst(p, n - 1, e, ev);
      OtherRun(p.passes[n - 1], RunFirst(p, n - 1, e), ev);
    }
  }

  /** Exactly when a nesting of arithmetic passes keeps meaning, defined or not: all
      that can be lost is an undefined factor of a product at the root. */
  lemma RunMeaning(p: Pass, e: Expr, ev: Evaluator)
    requires IntegerEvaluator(ev) && Arithmetic(p)
    ensures Evaluate(Run(p, e), ev) == Evaluate(e, ev) <==>
      Evaluate(e, ev).Some? || !(IsProduct(e) && Collapses(e) && Stops(p) == Some(MulIdentity))
  {
    hide Evaluate, IntegerEvaluator, Collapses, Run;
    if Evaluate(e, ev).Some? { RunKeepsMeaning(p, e, ev); }
    else if IsProduct(e) { ProductRun(p, e, ev); }
    else { OtherRun(p, e, ev); }
  }
}
