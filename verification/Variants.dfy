/** The types of what the rules return: a variant holds one of its alternatives, and
    which alternatives it has does not depend on the values in the tree. */
module Variants {
  import opened Exprs
  import opened Bits
  import opened Rewriting
  import opened Passes

  /** Every variant holds something of a type it lists. */
  predicate WellTyped(e: Expr)
  {
    match e
    case Num(_, _) => true
    case Opaque(_, _) => true
    case Held(x) => WellTyped(x)
    case Ref(_, x) => WellTyped(x)
    case Node(_, cs) => forall i | 0 <= i < |cs| :: WellTyped(cs[i])
    case Carrier(alternatives, x) => ShapeOf(x) in alternatives && WellTyped(x)
  }

  lemma {:induction false} TransformTyped(rule: Rule, e: Expr)
    requires WellTyped(e)
    ensures WellTyped(Transform(rule, e))
  {
    match e
    case Carrier(_, x) => TransformTyped(rule, x);
    case Node(tag, cs) =>
      var ts := seq(|cs|, i requires 0 <= i < |cs| => Transform(rule, cs[i]));
      forall i | 0 <= i < |cs| ensures WellTyped(ts[i]) { TransformTyped(rule, cs[i]); }
      NodeTyped(rule, tag, cs, ts);
    case _ =>
  }

  lemma NodeTyped(rule: Rule, tag: Tag, cs: seq<Expr>, ts: seq<Expr>)
    requires |cs| == |ts| && WellTyped(Node(tag, cs)) && forall i | 0 <= i < |ts| :: WellTyped(ts[i])
    ensures WellTyped(OnNode(rule, tag, cs, ts))
  {
    hide ShapeOf, Transform, Shifted, Promoted;
    if rule == StrengthReduction && |cs| == 2 {
      forall t, x, power | x in cs && power > 0 ensures WellTyped(Shifted(Node(tag, cs), t, x, power)) {
        ShiftedTyped(Node(tag, cs), t, x, power);
      }
      assert cs[0] in cs && cs[1] in cs;
    }
  }

  lemma ShiftedTyped(node: Expr, tag: Tag, x: Expr, power: int)
    requires WellTyped(x) && power > 0
    ensures WellTyped(Shifted(node, tag, x, power))
  {
    hide ShapeOf, ShiftCount;
    var shift := Node(tag, [x, Num(2, ShiftCount(power))]);
    assert WellTyped(shift) by {
      forall i | 0 <= i < 2 ensures WellTyped(shift.children[i]) {}
    }
    assert ShapeOf(shift) in [ShapeOf(node), ShapeOf(shift)];
  }

  /** No pass puts into a variant what it does not list. */
  lemma {:induction false} RunTyped(p: Pass, e: Expr)
    requires WellTyped(e)
    ensures WellTyped(Run(p, e))
    decreases p, Rank(p), 0
  {
    hide WellTyped;
    match p
    case Rewrite(rule) => TransformTyped(rule, e);
    case CommonSubexpressions =>
    case Fixpoint(q, n) =>
      RunTyped(q, e);
      SettleTyped(q, Run(q, e), 1, n);
    case Pipeline(ps) => RunFirstTyped(p, |ps|, e);
  }

  lemma {:induction false} RunFirstTyped(p: Pass, n: nat, e: Expr)
    requires WellTyped(e) && p.Pipeline? && n <= |p.passes|
    ensures WellTyped(RunFirst(p, n, e))
    decreases p, n, 0
  {
    if n > 0 {
      RunFirstTyped(p, n - 1, e);
      RunTyped(p.passes[n - 1], RunFirst(p, n - 1, e));
    }
  }

  lemma {:induction false} SettleTyped(p: Pass, cur: Expr, i: int, n: int)
    requires WellTyped(cur)
    ensures WellTyped(Settle(p, cur, i, n))
    decreases p, Rank(p) + 1, n - i
  {
    hide WellTyped, StructuralEqual;
    if i < n {
      RunTyped(p, cur);
      SettleTyped(p, Run(p, cur), i + 1, n);
    }
  }

  // ----- static types -----

  /** A simplification's variant lists the node first and what the operands became last;
      folding has its result between them where that is a type of its own. */
  lemma ListedTypes(rule: Rule, tag: Tag, cs: seq<Expr>, ts: seq<Expr>)
    requires |cs| == |ts| && Affects(rule, Node(tag, cs))
    requires rule == AddZero || rule == MulIdentity || rule == ConstantFold
    ensures var r := OnNode(rule, tag, cs, ts);
      var extra := if rule != ConstantFold || (tag == Mul && !(ts[0].Num? && ts[1].Num?)) then 0 else 1;
      && r.Carrier? && |r.alternatives| == 1 + extra + |ts| && r.alternatives[0] == ShapeOf(Node(tag, cs))
      && forall i | 0 <= i < |ts| :: r.alternatives[1 + extra + i] == ShapeOf(ts[i])
  {
    hide ShapeOf, Transform, Promoted;
  }

  /** A tree as it is written down, before any rule has run. */
  predicate VariantFree(e: Expr)
  {
    !e.Carrier? && (e.Node? ==> forall i | 0 <= i < |e.children| :: VariantFree(e.children[i]))
  }

  /** Rules that choose their result type without looking at values. */
  predicate Static(rule: Rule) { rule == AddZero || rule == MulIdentity || rule == ConstantFold || rule == DeadSubtree }

  /** Trees of one type come out with one type, whatever values they hold. */
  lemma {:induction false} TypeDetermined(rule: Rule, a: Expr, b: Expr)
    requires Static(rule) && VariantFree(a) && VariantFree(b) && ShapeOf(a) == ShapeOf(b)
    ensures ShapeOf(Transform(rule, a)) == ShapeOf(Transform(rule, b))
  {
    if a.Node? {
      var s, t := ShapeOf(a), ShapeOf(b);
      var x := seq(|a.children|, i requires 0 <= i < |a.children| => Transform(rule, a.children[i]));
      var y := seq(|b.children|, i requires 0 <= i < |b.children| => Transform(rule, b.children[i]));
      forall i | 0 <= i < |a.children| ensures ShapeOf(x[i]) == ShapeOf(y[i]) {
        assert s.children[i] == t.children[i];
        TypeDetermined(rule, a.children[i], b.children[i]);
      }
      NodeTypeDetermined(rule, a.tag, a.children, x, b.children, y);
    }
  }

  lemma NodeTypeDetermined(rule: Rule, tag: Tag, a: seq<Expr>, x: seq<Expr>, b: seq<Expr>, y: seq<Expr>)
    requires Static(rule) && |a| == |x| == |b| == |y|
    requires ShapeOf(Node(tag, a)) == ShapeOf(Node(tag, b))
    requires forall i | 0 <= i < |x| :: ShapeOf(x[i]) == ShapeOf(y[i])
    ensures ShapeOf(OnNode(rule, tag, a, x)) == ShapeOf(OnNode(rule, tag, b, y))
  {
    hide Transform, Promoted, OnCanonicalize, OnStrengthReduction;
  }

  /** Canonicalisation does look: two sums of one type become sums of two types. */
  lemma CanonicalTypeDepends(v: nat, w: nat)
    requires v != w
    ensures var a, b := Node(Add, [Num(v, 1), Num(w, 2)]), Node(Add, [Num(v, 2), Num(w, 1)]);
      ShapeOf(a) == ShapeOf(b) && ShapeOf(Transform(Canonicalize, a)) != ShapeOf(Transform(Canonicalize, b))
  {
    var a, b := Node(Add, [Num(v, 1), Num(w, 2)]), Node(Add, [Num(v, 2), Num(w, 1)]);
    TransformBinary(Canonicalize, a);
    TransformBinary(Canonicalize, b);
    assert ShapeOf(a).children == ShapeOf(b).children;
    assert ShapeOf(Transform(Canonicalize, a)).children[0] != ShapeOf(Transform(Canonicalize, b)).children[0];
  }
}
