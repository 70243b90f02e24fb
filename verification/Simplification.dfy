/** What the rules achieve: trees that do not grow, and operands in order. */
module Simplification {
  import opened Exprs
  import opened Bits
  import opened Rewriting
  import opened Passes

  /** How many nodes and terminals a tree has; a variant counts as what it holds. */
  function Size(e: Expr): (n: nat)
    ensures n >= 1
    decreases e, if e.Node? then |e.children| + 1 else 0
  {
    match e
    case Carrier(_, x) => Size(x)
    case Node(_, cs) => 1 + SizeFirst(e, |cs|)
    case _ => 1
  }

  function SizeFirst(e: Expr, n: nat): nat
    requires e.Node? && n <= |e.children|
    decreases e, n
  {
    if n == 0 then 0 else SizeFirst(e, n - 1) + Size(e.children[n - 1])
  }

  lemma SizeOfNode(e: Expr)
    requires e.Node?
    ensures |e.children| == 1 ==> Size(e) == 1 + Size(e.children[0])
    ensures |e.children| == 2 ==> Size(e) == 1 + Size(e.children[0]) + Size(e.children[1])
  {
    if |e.children| == 1 || |e.children| == 2 {
      assert SizeFirst(e, 1) == SizeFirst(e, 0) + Size(e.children[0]);
      if |e.children| == 2 { assert SizeFirst(e, 2) == SizeFirst(e, 1) + Size(e.children[1]); }
    }
  }

  lemma {:induction false} SizeFirstSame(a: Expr, b: Expr, n: nat)
    requires a.Node? && b.Node? && n <= |a.children| && n <= |b.children|
    requires forall i | 0 <= i < n :: a.children[i] == b.children[i]
    ensures SizeFirst(a, n) == SizeFirst(b, n)
  {
    if n > 0 { SizeFirstSame(a, b, n - 1); }
  }

  /** At any arity, one child more adds its own size, wherever it comes. */
  lemma {:induction false} SizeAddsUp(tag: Tag, before: seq<Expr>, c: Expr, after: seq<Expr>)
    ensures Size(Node(tag, [])) == 1 && (!c.Node? && !c.Carrier? ==> Size(c) == 1)
    ensures Size(Node(tag, before + [c] + after)) == Size(Node(tag, before + after)) + Size(c)
    decreases |after|
  {
    var e, f := Node(tag, before + [c] + after), Node(tag, before + after);
    if after == [] {
      SizeFirstSame(e, f, |before|);
    } else {
      var n, rest := |after| - 1, after[..|after| - 1];
      SizeAddsUp(tag, before, c, rest);
      SizeFirstSame(e, Node(tag, before + [c] + rest), |before| + 1 + n);
      SizeFirstSame(f, Node(tag, before + rest), |before| + n);
    }
  }

  predicate Simplifies(rule: Rule) { rule == AddZero || rule == MulIdentity || rule == ConstantFold }

  /** There is something for the rule to do at the root, given what its operands became. */
  predicate Reducible(rule: Rule, tag: Tag, ts: seq<Expr>)
  {
    match rule
    case AddZero => tag == Add && |ts| == 2 && exists t | t in ts :: t.Num? && t.value == 0
    case MulIdentity => tag == Mul && |ts| == 2 && exists t | t in ts :: IsNumber(t, 0) || IsNumber(t, 1)
    case ConstantFold =>
      (if |ts| == 2 then tag == Add || tag == Mul else tag == Neg && |ts| == 1) && forall t | t in ts :: t.Num?
    case _ => false
  }

  /** One rule at one node, if its operands have not grown: the tree does not grow
      either, and a simplification shrinks it exactly if there is something to do. */
  lemma NodeShrinks(rule: Rule, tag: Tag, cs: seq<Expr>, ts: seq<Expr>)
    requires |cs| == |ts| && forall i | 0 <= i < |cs| :: Size(ts[i]) <= Size(cs[i])
    ensures Size(OnNode(rule, tag, cs, ts)) <= Size(Node(tag, cs))
    ensures Simplifies(rule) ==>
      if Reducible(rule, tag, ts) then Size(OnNode(rule, tag, cs, ts)) < Size(Node(tag, cs))
      else Peel(OnNode(rule, tag, cs, ts)) == Node(tag, cs)
  {
    hide ShapeOf, Transform, SizeFirst, OnStrengthReduction, OnConstantFold;
    SizeOfNode(Node(tag, cs));
    FoldingShrinks(tag, cs, ts);
    if |cs| == 2 {
      assert ts[0] in ts && ts[1] in ts;
      SizeOfNode(Node(tag, [cs[1], cs[0]]));
      ShiftsAreSmall(tag, cs, ts);
    } else {
      hide OnAddZero, OnMulIdentity, OnCanonicalize;
      OthersStay(tag, cs, ts);
      if |cs| == 1 { assert ts[0] in ts; }
    }
  }

  lemma FoldingShrinks(tag: Tag, cs: seq<Expr>, ts: seq<Expr>)
    requires |cs| == |ts|
    ensures if Reducible(ConstantFold, tag, ts) then Size(OnConstantFold(tag, cs, ts)) < Size(Node(tag, cs))
            else Peel(OnConstantFold(tag, cs, ts)) == Node(tag, cs) &&
                 Size(OnConstantFold(tag, cs, ts)) == Size(Node(tag, cs))
  {
    hide ShapeOf, SizeFirst, Promoted;
    SizeOfNode(Node(tag, cs));
    assert |ts| >= 1 ==> ts[0] in ts;
    assert |ts| == 2 ==> ts[1] in ts;
  }

  /** Most rules look at binary nodes only. */
  lemma OthersStay(tag: Tag, cs: seq<Expr>, ts: seq<Expr>)
    requires |cs| == |ts| != 2
    ensures OnAddZero(tag, cs, ts) == OnMulIdentity(tag, cs, ts) == Node(tag, cs)
    ensures OnCanonicalize(tag, cs, ts) == OnStrengthReduction(tag, cs, ts) == Node(tag, cs)
  {
  }

  /** What a simplification leaves where there is something to do: add-zero and
      multiply-identity one of the operands as it became, folding a number whose type
      is at least `int` and otherwise that of the wider operand. */
  lemma WhatIsLeft(rule: Rule, tag: Tag, cs: seq<Expr>, ts: seq<Expr>)
    requires |cs| == |ts| && Reducible(rule, tag, ts)
    ensures var r := OnNode(rule, tag, cs, ts);
      if rule == ConstantFold then
        && Peel(r).Num? && Peel(r).width >= 2 && (forall t | t in ts :: Peel(r).width >= t.width)
        && (Peel(r).width > 2 ==> exists t | t in ts :: Peel(r).width == t.width)
      else exists t | t in ts :: Peel(r) == Peel(t)
  {
    hide ShapeOf, Transform;
    if |ts| == 2 { assert ts[0] in ts && ts[1] in ts; }
    if |ts| == 1 { assert ts[0] in ts; }
  }

  lemma ShiftsAreSmall(tag: Tag, cs: seq<Expr>, ts: seq<Expr>)
    requires |cs| == |ts| == 2
    ensures Size(OnStrengthReduction(tag, cs, ts)) <= Size(Node(tag, cs))
  {
    hide ShapeOf, SizeFirst, ShiftCount;
    SizeOfNode(Node(tag, cs));
    if ts[1].Num? && IsPowerOfTwo(ts[1].value) {
      SizeOfNode(Node(Shl, [cs[0], Num(2, ShiftCount(ts[1].value))]));
      SizeOfNode(Node(Shr, [cs[0], Num(2, ShiftCount(ts[1].value))]));
    }
    if ts[0].Num? && IsPowerOfTwo(ts[0].value) {
      SizeOfNode(Node(Shl, [cs[1], Num(2, ShiftCount(ts[0].value))]));
    }
  }

  /** No rule makes a tree grow, and whatever a simplification changes it shrinks. */
  lemma {:induction false} TransformShrinks(rule: Rule, e: Expr)
    ensures Size(Transform(rule, e)) <= Size(e)
    ensures Simplifies(rule) ==>
      (Size(Transform(rule, e)) == Size(e) <==> Peel(Transform(rule, e)) == Peel(e))
  {
    match e
    case Carrier(_, x) => TransformShrinks(rule, x);
    case Node(tag, cs) =>
      var ts := seq(|cs|, i requires 0 <= i < |cs| => Transform(rule, cs[i]));
      forall i | 0 <= i < |cs| ensures Size(ts[i]) <= Size(cs[i]) { TransformShrinks(rule, cs[i]); }
      NodeShrinks(rule, tag, cs, ts);
      PeelKeepsSize(Transform(rule, e));
    case _ =>
  }

  lemma {:induction false} PeelKeepsSize(e: Expr)
    ensures Size(Peel(e)) == Size(e)
  {
    if e.Carrier? { PeelKeepsSize(e.active); }
  }

  /** Nor does any nesting of passes. */
  lemma {:induction false} RunShrinks(p: Pass, e: Expr)
    ensures Size(Run(p, e)) <= Size(e)
    decreases p, Rank(p), 0
  {
    match p
    case Rewrite(rule) => TransformShrinks(rule, e);
    case CommonSubexpressions =>
    case Fixpoint(q, n) =>
      RunShrinks(q, e);
      SettleShrinks(q, Run(q, e), 1, n);
    case Pipeline(ps) => RunFirstShrinks(p, |ps|, e);
  }

  lemma {:induction false} RunFirstShrinks(p: Pass, n: nat, e: Expr)
    requires p.Pipeline? && n <= |p.passes|
    ensures Size(RunFirst(p, n, e)) <= Size(e)
    decreases p, n, 0
  {
    if n > 0 {
      RunFirstShrinks(p, n - 1, e);
      RunShrinks(p.passes[n - 1], RunFirst(p, n - 1, e));
    }
  }

  lemma {:induction false} SettleShrinks(p: Pass, cur: Expr, i: int, n: int)
    ensures Size(Settle(p, cur, i, n)) <= Size(cur)
    decreases p, Rank(p) + 1, n - i
  {
    if i < n {
      RunShrinks(p, cur);
      SettleShrinks(p, Run(p, cur), i + 1, n);
    }
  }

  /** Numbers come last, and of two numbers the larger one. */
  predicate InOrder(a: Expr, b: Expr)
  {
    IsArithmetic(a) ==> IsArithmetic(b) && ArithmeticValue(a) <= ArithmeticValue(b)
  }

  function Canonical(e: Expr): Expr { RewriteOnce(Canonicalize, e) }

  /** The operands of a sum or product are kept and put in order. */
  lemma CanonicalForm(e: Expr)
    requires e.Node? && |e.children| == 2 && (e.tag == Add || e.tag == Mul)
    ensures var r := Canonical(e);
      && r.Node? && r.tag == e.tag && |r.children| == 2 && multiset(r.children) == multiset(e.children)
      && InOrder(Transform(Canonicalize, r.children[0]), Transform(Canonicalize, r.children[1]))
    ensures Canonical(e) == e <==>
      InOrder(Transform(Canonicalize, e.children[0]), Transform(Canonicalize, e.children[1]))
  {
    hide Transform;
    TransformBinary(Canonicalize, e);
    assert e.children == [e.children[0], e.children[1]];
  }

  /** Exactly which pairs of operands end up the same whichever way round they came. */
  lemma CanonicalFormsMeet(tag: Tag, a: Expr, b: Expr)
    requires tag == Add || tag == Mul
    ensures Canonical(Node(tag, [a, b])) == Canonical(Node(tag, [b, a])) <==>
      var x, y := Transform(Canonicalize, a), Transform(Canonicalize, b);
      a == b || !(InOrder(x, y) && InOrder(y, x))
  {
    hide Transform;
    TransformBinary(Canonicalize, Node(tag, [a, b]));
    TransformBinary(Canonicalize, Node(tag, [b, a]));
    assert a != b ==> Node(tag, [a, b]).children[0] != Node(tag, [b, a]).children[0];
  }
}
