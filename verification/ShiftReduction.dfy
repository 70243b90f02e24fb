/** Strength reduction: when a shift is worth the product or quotient it replaces. */
module ShiftReduction {
  import opened Wrappers
  import opened Exprs
  import opened Bits
  import opened Rewriting
  import opened Passes

  /** Division as C++ does it: towards zero. */
  function Quotient(a: int, b: int): int
    requires b != 0
  {
    if a >= 0 then a / b else -((-a) / b)
  }

  /** Also divides as C++ does, and shifts by powers of two, rounding right shifts down. */
  ghost predicate ShiftingEvaluator(ev: Evaluator)
  {
    && IntegerEvaluator(ev)
    && (forall a, b :: ev.onNode(Div, [a, b]) == if b == 0 then None else Some(Quotient(a, b)))
    && (forall a, n: nat :: ev.onNode(Shl, [a, n]) == Some(a * Pow2(n)))
    && (forall a, n: nat :: ev.onNode(Shr, [a, n]) == Some(a / Pow2(n)))
  }

  /** The branch that turns a division into a shift. */
  predicate ReducesDivision(e: Expr)
  {
    e.Node? && e.tag == Div && |e.children| == 2 &&
    var b := Transform(StrengthReduction, e.children[1]);
    b.Num? && IsPowerOfTwo(b.value)
  }

  lemma {:induction false} NumbersStayThemselves(e: Expr, ev: Evaluator)
    requires IntegerEvaluator(ev) && Transform(StrengthReduction, e).Num?
    ensures Evaluate(e, ev) == Some(Transform(StrengthReduction, e).value)
  {
    if e.Carrier? {
      NumbersStayThemselves(e.active, ev);
    } else {
      assert ev.onTerminal(e) == Some(ArithmeticValue(e));
    }
  }

  /** It is the quotient whose remainder is smaller than the divisor and has the sign
      of the dividend. */
  lemma QuotientTruncates(a: int, b: int)
    requires b != 0
    ensures var r, m := a - Quotient(a, b) * b, if b < 0 then -b else b;
      if a >= 0 then 0 <= r < m else -m < r <= 0
  {
    var n := if a >= 0 then a else -a;
    assert n == (n / b) * b + n % b;
  }

  lemma ShiftIsQuotient(a: int, p: int)
    requires p > 0
    ensures a / p == Quotient(a, p) <==> a >= 0 || a % p == 0
  {
    if a < 0 {
      var q, r := (-a) / p, (-a) % p;
      if r == 0 {
        ModuloUnique(a, p, -q, 0);
      } else {
        assert p * (-q - 1) == -(p * q) - p;
        ModuloUnique(a, p, -q - 1, p - r);
      }
    }
  }

  lemma ShiftsEvaluate(x: Expr, n: Expr, ev: Evaluator)
    requires ShiftingEvaluator(ev) && n.Num? && n.value >= 0 && Evaluate(x, ev).Some?
    ensures EvaluateBinary(Shl, x, n, ev) == Some(Evaluate(x, ev).value * Pow2(n.value))
    ensures EvaluateBinary(Shr, x, n, ev) == Some(Evaluate(x, ev).value / Pow2(n.value))
  {
    NumbersEvaluate(n, ev);
    var v, k: nat := Evaluate(x, ev).value, n.value;
    assert ev.onNode(Shl, [v, k]) == Some(v * Pow2(k));
    assert ev.onNode(Shr, [v, k]) == Some(v / Pow2(k));
  }

  lemma ShiftedMeaning(node: Expr, tag: Tag, x: Expr, power: int, ev: Evaluator)
    requires ShiftingEvaluator(ev) && IsPowerOfTwo(power) && (tag == Shl || tag == Shr) && Evaluate(x, ev).Some?
    ensures Evaluate(Shifted(node, tag, x, power), ev)
         == Some(if tag == Shl then Evaluate(x, ev).value * power else Evaluate(x, ev).value / power)
  {
    hide ShapeOf, ShiftingEvaluator, EvaluateBinary, EvaluateFirst;
    var n := Num(2, ShiftCount(power));
    EvaluateNode(Node(tag, [x, n]), ev);
    PowerOfTwoTest(power);
    ShiftsEvaluate(x, n, ev);
  }

  /** What the two operands of a defined product or quotient are worth. */
  lemma OperandsEvaluate(e: Expr, ev: Evaluator)
    requires ShiftingEvaluator(ev) && e.Node? && |e.children| == 2 && Evaluate(e, ev).Some?
    ensures Evaluate(e.children[0], ev).Some? && Evaluate(e.children[1], ev).Some?
    ensures var v, w := Evaluate(e.children[0], ev).value, Evaluate(e.children[1], ev).value;
      && (e.tag == Mul ==> Evaluate(e, ev) == Some(v * w))
      && (e.tag == Div && w != 0 ==> Evaluate(e, ev) == Some(Quotient(v, w)))
  {
    EvaluateNode(e, ev);
    SumsEvaluate(e.children[0], e.children[1], ev);
    var v, w := Evaluate(e.children[0], ev).value, Evaluate(e.children[1], ev).value;
    assert ev.onNode(Div, [v, w]) == if w == 0 then None else Some(Quotient(v, w));
  }

  lemma ReducedProduct(e: Expr, ev: Evaluator)
    requires ShiftingEvaluator(ev) && Evaluate(e, ev).Some? && e.Node? && |e.children| == 2 && e.tag == Mul
    ensures Evaluate(RewriteOnce(StrengthReduction, e), ev) == Evaluate(e, ev)
  {
    hide ShapeOf, ShiftingEvaluator, Shifted, IsPowerOfTwo, EvaluateFirst, IntegerEvaluator;
    OperandsEvaluate(e, ev);
    TransformBinary(StrengthReduction, e);
    var a, b := Transform(StrengthReduction, e.children[0]), Transform(StrengthReduction, e.children[1]);
    ShiftsAreIntegers(ev);
    if b.Num? && IsPowerOfTwo(b.value) {
      NumbersStayThemselves(e.children[1], ev);
      ShiftedMeaning(e, Shl, e.children[0], b.value, ev);
    } else if a.Num? && IsPowerOfTwo(a.value) {
      NumbersStayThemselves(e.children[0], ev);
      ShiftedMeaning(e, Shl, e.children[1], a.value, ev);
    }
  }

  lemma ShiftsAreIntegers(ev: Evaluator)
    requires ShiftingEvaluator(ev)
    ensures IntegerEvaluator(ev)
  {
  }

  lemma ReducedQuotient(e: Expr, ev: Evaluator)
    requires ShiftingEvaluator(ev) && Evaluate(e, ev).Some? && ReducesDivision(e)
    ensures Evaluate(e.children[0], ev).Some?
    ensures var a, p := Evaluate(e.children[0], ev).value, Transform(StrengthReduction, e.children[1]).value;
      p != 0 && (Evaluate(RewriteOnce(StrengthReduction, e), ev) == Evaluate(e, ev) <==> a >= 0 || a % p == 0)
  {
    hide ShapeOf, ShiftingEvaluator, Shifted, Quotient;
    OperandsEvaluate(e, ev);
    TransformBinary(StrengthReduction, e);
    var p := Transform(StrengthReduction, e.children[1]).value;
    assert p > 0;
    ShiftsAreIntegers(ev);
    NumbersStayThemselves(e.children[1], ev);
    ShiftedMeaning(e, Shr, e.children[0], p, ev);
    ShiftIsQuotient(Evaluate(e.children[0], ev).value, p);
  }

  lemma UnreducedStays(e: Expr, ev: Evaluator)
    requires !ReducesDivision(e) && !(e.Node? && |e.children| == 2 && e.tag == Mul)
    ensures Evaluate(RewriteOnce(StrengthReduction, e), ev) == Evaluate(e, ev)
  {
    hide ShapeOf, Shifted;
    if e.Node? && |e.children| == 2 { TransformBinary(StrengthReduction, e); }
  }

  predicate IsPower(e: Expr) { e.Num? && IsPowerOfTwo(e.value) }

  /** Which binary nodes are turned into shifts, of which operand and by how much; all
      others come back as they are. Of two powers the right one becomes the shift. */
  lemma ReducedRoot(e: Expr)
    requires e.Node? && |e.children| == 2
    ensures var r := Peel(RewriteOnce(StrengthReduction, e));
      var a, b := Transform(StrengthReduction, e.children[0]), Transform(StrengthReduction, e.children[1]);
      if (e.tag == Mul && (IsPower(a) || IsPower(b))) || (e.tag == Div && IsPower(b))
      then
        var k := if IsPower(b) then 1 else 0;
        var power := if k == 1 then b else a;
        && r.Node? && r.tag == (if e.tag == Mul then Shl else Shr) && |r.children| == 2
        && r.children[0] == e.children[1 - k]
        && r.children[1].Num? && r.children[1].width == 2 && r.children[1].value >= 0
        && Pow2(r.children[1].value) == power.value
      else r == e
  {
    hide ShapeOf, Transform, ShiftCount, Pow2;
    TransformBinary(StrengthReduction, e);
    var a, b := Transform(StrengthReduction, e.children[0]), Transform(StrengthReduction, e.children[1]);
    if IsPower(a) { PowerOfTwoTest(a.value); }
    if IsPower(b) { PowerOfTwoTest(b.value); }
  }

  /** What is undefined stays so: the operand that becomes a shift is a number. */
  lemma UndefinedUnreduced(e: Expr, ev: Evaluator)
    requires ShiftingEvaluator(ev) && Evaluate(e, ev).None?
    ensures Evaluate(RewriteOnce(StrengthReduction, e), ev).None?
  {
    hide ShapeOf, ShiftingEvaluator, IntegerEvaluator, Evaluate, Transform;
    if e.Node? && |e.children| == 2 && (e.tag == Mul || e.tag == Div) {
      var x, y := e.children[0], e.children[1];
      var a, b := Transform(StrengthReduction, x), Transform(StrengthReduction, y);
      TransformBinary(StrengthReduction, e);
      if b.Num? && IsPowerOfTwo(b.value) {
        NumberDividesOrMultiplies(e, ev);
        ShiftedUndefined(e, Shl, x, b.value, ev);
        ShiftedUndefined(e, Shr, x, b.value, ev);
      } else if e.tag == Mul && a.Num? && IsPowerOfTwo(a.value) {
        NumberDividesOrMultiplies(e, ev);
        ShiftedUndefined(e, Shl, y, a.value, ev);
      } else {
        VariantsEvaluate([ShapeOf(e)], e, ev);
      }
    } else {
      UnreducedStays(e, ev);
    }
  }

  lemma NumberDividesOrMultiplies(e: Expr, ev: Evaluator)
    requires ShiftingEvaluator(ev) && Evaluate(e, ev).None?
    requires e.Node? && |e.children| == 2 && (e.tag == Mul || e.tag == Div)
    ensures var x, y := e.children[0], e.children[1];
      var a, b := Transform(StrengthReduction, x), Transform(StrengthReduction, y);
      && (b.Num? && b.value > 0 ==> Evaluate(x, ev).None?)
      && (e.tag == Mul && a.Num? ==> Evaluate(y, ev).None?)
  {
    hide Evaluate, Transform, Quotient;
    var x, y := e.children[0], e.children[1];
    EvaluateNode(e, ev);
    SumsEvaluate(x, y, ev);
    if Transform(StrengthReduction, x).Num? { NumbersStayThemselves(x, ev); }
    if Transform(StrengthReduction, y).Num? { NumbersStayThemselves(y, ev); }
    if Evaluate(x, ev).Some? && Evaluate(y, ev).Some? {
      var v, w := Evaluate(x, ev).value, Evaluate(y, ev).value;
      assert ev.onNode(Div, [v, w]) == if w == 0 then None else Some(Quotient(v, w));
    }
  }

  lemma ShiftedUndefined(node: Expr, tag: Tag, x: Expr, power: int, ev: Evaluator)
    requires power > 0 && Evaluate(x, ev).None?
    ensures Evaluate(Shifted(node, tag, x, power), ev).None?
  {
    hide ShapeOf, Evaluate, ShiftCount;
    var shift := Node(tag, [x, Num(2, ShiftCount(power))]);
    EvaluateNode(shift, ev);
    VariantsEvaluate([ShapeOf(node), ShapeOf(shift)], shift, ev);
  }

  /** A reduced division has a dividend that is not negative or leaves no remainder. */
  predicate ShiftsExactly(e: Expr, ev: Evaluator)
  {
    ReducesDivision(e) && Evaluate(e.children[0], ev).Some? ==>
      var a, p := Evaluate(e.children[0], ev).value, Transform(StrengthReduction, e.children[1]).value;
      a >= 0 || a % p == 0
  }

  /** Exactly then the pass keeps meaning, defined or not. */
  lemma StrengthReductionMeaning(e: Expr, ev: Evaluator)
    requires ShiftingEvaluator(ev)
    ensures Evaluate(RewriteOnce(StrengthReduction, e), ev) == Evaluate(e, ev) <==> ShiftsExactly(e, ev)
  {
    if Evaluate(e, ev).None? {
      UndefinedUnreduced(e, ev);
      if ReducesDivision(e) {
        ShiftsAreIntegers(ev);
        NumberDividesOrMultiplies(e, ev);
      }
    }
    else if ReducesDivision(e) { ReducedQuotient(e, ev); }
    else if e.Node? && |e.children| == 2 && e.tag == Mul { ReducedProduct(e, ev); }
    else { UnreducedStays(e, ev); }
  }

  /** Exactly when O2 keeps meaning, whatever its limit. */
  lemma O2Meaning(maxIters: int, e: Expr, ev: Evaluator)
    requires ShiftingEvaluator(ev)
    ensures Evaluate(Run(O2(maxIters), e), ev) == Evaluate(e, ev) <==>
      if Evaluate(e, ev).None? then !(IsProduct(e) && Collapses(e)) else ShiftsExactly(e, ev)
  {
    hide Evaluate, Transform, ShiftingEvaluator, IntegerEvaluator, Collapses;
    ShiftsAreIntegers(ev);
    O2IsOnePassEach(maxIters, e);
    StrengthReductionMeaning(e, ev);
    if e.Node? && |e.children| == 2 && (e.tag == Add || e.tag == Mul) {
      O1AtTheRoot(e);
      RootBecomesVariant(if e.tag == Add then AddZero else MulIdentity, e);
      PresetsMeaning(Basic, e, ev);
    } else {
      O1AtTheRoot(e);
      if Evaluate(e, ev).None? { UndefinedUnreduced(e, ev); }
    }
  }
}
