/** The rewrite rules: one bottom-up pass per rule, and what it does to the meaning
    of an expression. */
module Rewriting {
  import opened Wrappers
  import opened Exprs
  import opened Bits

  datatype Rule = AddZero | MulIdentity | ConstantFold | Canonicalize | StrengthReduction | DeadSubtree

  // ----- one pass -----

  /** Rules see each node's children as they were and as they came out of the
      recursion; every rule that does not fire rebuilds from the former. */
  function Transform(rule: Rule, e: Expr): Expr
  {
    match e
    case Carrier(_, x) => Transform(rule, x)
    case Node(tag, cs) => OnNode(rule, tag, cs, seq(|cs|, i requires 0 <= i < |cs| => Transform(rule, cs[i])))
    case _ => e
  }

  /** Only nodes are rewritten; terminals and variants come back as they are. */
  function RewriteOnce(rule: Rule, e: Expr): Expr
  {
    if e.Node? then Transform(rule, e) else e
  }

  function OnNode(rule: Rule, tag: Tag, original: seq<Expr>, transformed: seq<Expr>): Expr
    requires |original| == |transformed|
  {
    match rule
    case AddZero => OnAddZero(tag, original, transformed)
    case MulIdentity => OnMulIdentity(tag, original, transformed)
    case ConstantFold => OnConstantFold(tag, original, transformed)
    case Canonicalize => OnCanonicalize(tag, original, transformed)
    case StrengthReduction => OnStrengthReduction(tag, original, transformed)
    case DeadSubtree => Node(tag, original)
  }

  function OnAddZero(tag: Tag, original: seq<Expr>, transformed: seq<Expr>): Expr
    requires |original| == |transformed|
  {
    if tag == Add && |original| == 2 then
      var node, a, b := Node(tag, original), transformed[0], transformed[1];
      var alternatives := [ShapeOf(node), ShapeOf(a), ShapeOf(b)];
      if b.Num? && b.value == 0 then Carrier(alternatives, a)
      else if a.Num? && a.value == 0 then Carrier(alternatives, b)
      else Carrier(alternatives, node)
    else Node(tag, original)
  }

  /** A number, also one level inside a wrapper. */
  predicate IsArithmetic(e: Expr)
  {
    e.Num? || (e.Held? && e.inner.Num?) || (e.Ref? && e.target.Num?)
  }

  function ArithmeticValue(e: Expr): int
    requires IsArithmetic(e)
  {
    if e.Num? then e.value else if e.Held? then e.inner.value else e.target.value
  }

  predicate IsNumber(e: Expr, v: int)
  {
    IsArithmetic(e) && ArithmeticValue(e) == v
  }

  function OnMulIdentity(tag: Tag, original: seq<Expr>, transformed: seq<Expr>): Expr
    requires |original| == |transformed|
  {
    if tag == Mul && |original| == 2 then
      var node, a, b := Node(tag, original), transformed[0], transformed[1];
      var alternatives := [ShapeOf(node), ShapeOf(a), ShapeOf(b)];
      if IsNumber(b, 0) then Carrier(alternatives, b)
      else if IsNumber(b, 1) then Carrier(alternatives, a)
      else if IsNumber(a, 0) then Carrier(alternatives, a)
      else if IsNumber(a, 1) then Carrier(alternatives, b)
      else Carrier(alternatives, node)
    else Node(tag, original)
  }

  /** The type of an arithmetic result: at least `int`, else the wider operand's. */
  function Promoted(v: nat, w: nat): (r: nat)
    ensures r >= v && r >= w && r >= 2 && (r == v || r == w || r == 2)
  {
    if v > 2 && v >= w then v else if w > 2 then w else 2
  }

  function OnConstantFold(tag: Tag, original: seq<Expr>, transformed: seq<Expr>): Expr
    requires |original| == |transformed|
  {
    var node := Node(tag, original);
    if tag == Add && |original| == 2 then
      var a, b := transformed[0], transformed[1];
      if a.Num? && b.Num? then
        var sum := Num(Promoted(a.width, b.width), a.value + b.value);
        Carrier([ShapeOf(node), ShapeOf(sum), ShapeOf(a), ShapeOf(b)], sum)
      else Carrier([ShapeOf(node), NodeShape(Add, [ShapeOf(a), ShapeOf(b)]), ShapeOf(a), ShapeOf(b)], node)
    else if tag == Mul && |original| == 2 then
      var a, b := transformed[0], transformed[1];
      if a.Num? && b.Num? then
        var product := Num(Promoted(a.width, b.width), a.value * b.value);
        Carrier([ShapeOf(node), ShapeOf(product), ShapeOf(a), ShapeOf(b)], product)
      else Carrier([ShapeOf(node), ShapeOf(a), ShapeOf(b)], node)
    else if tag == Neg && |original| == 1 then
      var a := transformed[0];
      if a.Num? then
        var negated := Num(Promoted(a.width, a.width), -a.value);
        Carrier([ShapeOf(node), ShapeOf(negated), ShapeOf(a)], negated)
      else Carrier([ShapeOf(node), NodeShape(Neg, [ShapeOf(a)]), ShapeOf(a)], node)
    else node
  }

  function OnCanonicalize(tag: Tag, original: seq<Expr>, transformed: seq<Expr>): Expr
    requires |original| == |transformed|
  {
    if (tag == Add || tag == Mul) && |original| == 2 then
      var a, b := transformed[0], transformed[1];
      var swapped := Node(tag, [original[1], original[0]]);
      if IsArithmetic(a) && IsArithmetic(b) then
        if ArithmeticValue(a) <= ArithmeticValue(b) then Node(tag, original) else swapped
      else if IsArithmetic(a) then swapped
      else Node(tag, original)
    else Node(tag, original)
  }

  /** `x * 2^n` becomes `x << n` and `x / 2^n` becomes `x >> n`. */
  function OnStrengthReduction(tag: Tag, original: seq<Expr>, transformed: seq<Expr>): Expr
    requires |original| == |transformed|
  {
    var node := Node(tag, original);
    if tag == Mul && |original| == 2 then
      var a, b := transformed[0], transformed[1];
      if b.Num? && IsPowerOfTwo(b.value) then Shifted(node, Shl, original[0], b.value)
      else if a.Num? && IsPowerOfTwo(a.value) then Shifted(node, Shl, original[1], a.value)
      else Carrier([ShapeOf(node)], node)
    else if tag == Div && |original| == 2 then
      var b := transformed[1];
      if b.Num? && IsPowerOfTwo(b.value) then Shifted(node, Shr, original[0], b.value)
      else Carrier([ShapeOf(node)], node)
    else node
  }

  function Shifted(node: Expr, tag: Tag, operand: Expr, power: int): Expr
    requires power > 0
  {
    var shift := Node(tag, [operand, Num(2, ShiftCount(power))]);
    Carrier([ShapeOf(node), ShapeOf(shift)], shift)
  }

  /** The loop that finds the shift: the exponent of a power of two, zero below
      two, and in between the exponent rounded down. */
  method PowerOfTwoExponent(value: int) returns (result: nat)
    ensures value >= 1 ==> Pow2(result) <= value < 2 * Pow2(result)
    ensures value >= 1 ==> result == ShiftCount(value)
    ensures value < 1 ==> result == 0
    ensures IsPowerOfTwo(value) ==> Pow2(result) == value
  {
    result := 0;
    var v := value;
    while v > 1
      invariant value >= 1 ==> v >= 1 && ShiftCount(value) == result + ShiftCount(v)
      invariant value < 1 ==> result == 0 && v == value
    {
      v := v / 2;
      result := result + 1;
    }
    if value >= 1 { ShiftCountBounds(value); }
    PowerOfTwoTest(value);
  }

  // ----- meaning -----

  /** What a caller of `evaluate` supplies; None is an undefined result. */
  datatype Evaluator = Evaluator(onTerminal: Expr -> Option<int>, onNode: (Tag, seq<int>) -> Option<int>)

  function Evaluate(e: Expr, ev: Evaluator): Option<int>
    decreases e, if e.Node? then |e.children| + 1 else 0
  {
    match e
    case Carrier(_, x) => Evaluate(x, ev)
    case Node(tag, cs) =>
      var values := EvaluateFirst(e, |cs|, ev);
      if values.Some? then ev.onNode(tag, values.value) else None
    case _ => ev.onTerminal(e)
  }

  /** The values of the first `n` children, if all are defined. */
  function EvaluateFirst(e: Expr, n: nat, ev: Evaluator): Option<seq<int>>
    requires e.Node? && n <= |e.children|
    decreases e, n
  {
    if n == 0 then Some([])
    else
      var values, v := EvaluateFirst(e, n - 1, ev), Evaluate(e.children[n - 1], ev);
      if values.Some? && v.Some? then Some(values.value + [v.value]) else None
  }

  /** Numbers stand for themselves, wrapped or not; sums, products and negations
      are those of the integers. Everything else is the evaluator's own affair. */
  ghost predicate IntegerEvaluator(ev: Evaluator)
  {
    && (forall e | IsArithmetic(e) :: ev.onTerminal(e) == Some(ArithmeticValue(e)))
    && (forall a, b :: ev.onNode(Add, [a, b]) == Some(a + b))
    && (forall a, b :: ev.onNode(Mul, [a, b]) == Some(a * b))
    && (forall a :: ev.onNode(Neg, [a]) == Some(-a))
  }

  function EvaluateUnary(tag: Tag, a: Expr, ev: Evaluator): Option<int>
  {
    var v := Evaluate(a, ev);
    if v.Some? then ev.onNode(tag, [v.value]) else None
  }

  function EvaluateBinary(tag: Tag, a: Expr, b: Expr, ev: Evaluator): Option<int>
  {
    var v, w := Evaluate(a, ev), Evaluate(b, ev);
    if v.Some? && w.Some? then ev.onNode(tag, [v.value, w.value]) else None
  }

  lemma EvaluateNode(e: Expr, ev: Evaluator)
    requires e.Node?
    ensures |e.children| == 1 ==> Evaluate(e, ev) == EvaluateUnary(e.tag, e.children[0], ev)
    ensures |e.children| == 2 ==> Evaluate(e, ev) == EvaluateBinary(e.tag, e.children[0], e.children[1], ev)
  {
    if |e.children| == 1 || |e.children| == 2 {
      var v := Evaluate(e.children[0], ev);
      assert EvaluateFirst(e, 0, ev) == Some([]);
      assert v.Some? ==> [] + [v.value] == [v.value];
      assert EvaluateFirst(e, 1, ev) == if v.Some? then Some([v.value]) else None;
      if |e.children| == 2 {
        var w := Evaluate(e.children[1], ev);
        assert v.Some? && w.Some? ==> [v.value] + [w.value] == [v.value, w.value];
        assert EvaluateFirst(e, 2, ev) == if v.Some? && w.Some? then Some([v.value, w.value]) else None;
      }
    }
  }

  /** At any arity a node is worth what its tag makes of what all its children are worth. */
  lemma EvaluateAnyArity(e: Expr, ev: Evaluator, values: seq<int>)
    requires e.Node? && |values| == |e.children|
    requires forall i | 0 <= i < |values| :: Evaluate(e.children[i], ev) == Some(values[i])
    ensures Evaluate(e, ev) == ev.onNode(e.tag, values)
  {
    EvaluateUpTo(e, ev, values, |values|);
    assert values[..|values|] == values;
  }

  lemma {:induction false} EvaluateUpTo(e: Expr, ev: Evaluator, values: seq<int>, n: nat)
    requires e.Node? && n <= |values| == |e.children|
    requires forall i | 0 <= i < |values| :: Evaluate(e.children[i], ev) == Some(values[i])
    ensures EvaluateFirst(e, n, ev) == Some(values[..n])
  {
    if n > 0 {
      EvaluateUpTo(e, ev, values, n - 1);
      assert values[..n] == values[..n - 1] + [values[n - 1]];
    }
  }

  lemma {:induction false} UndefinedChild(e: Expr, ev: Evaluator, i: nat)
    requires e.Node? && i < |e.children| && Evaluate(e.children[i], ev).None?
    ensures Evaluate(e, ev).None?
  {
    UndefinedUpTo(e, ev, i, |e.children|);
  }

  lemma {:induction false} UndefinedUpTo(e: Expr, ev: Evaluator, i: nat, n: nat)
    requires e.Node? && i < n <= |e.children| && Evaluate(e.children[i], ev).None?
    ensures EvaluateFirst(e, n, ev).None?
  {
    if i < n - 1 { UndefinedUpTo(e, ev, i, n - 1); }
  }

  /** What the rules take for a number: one outside any variant, in at most one wrapper. */
  lemma ArithmeticMeaning(e: Expr)
    ensures IsArithmetic(e) <==> NumberOf(e).Some? && !e.Carrier? && (Wrapped(e) ==> Unwrap(e).Num?)
    ensures IsArithmetic(e) ==> NumberOf(e) == Some(ArithmeticValue(e))
  {
  }

  /** Rules whose result is always worth exactly what the expression was. */
  predicate Exact(rule: Rule)
  {
    rule == AddZero || rule == ConstantFold || rule == Canonicalize || rule == DeadSubtree
  }

  lemma NumbersEvaluate(e: Expr, ev: Evaluator)
    requires IntegerEvaluator(ev) && IsArithmetic(e)
    ensures Evaluate(e, ev) == Some(ArithmeticValue(e))
  {
  }

  lemma SumsEvaluate(a: Expr, b: Expr, ev: Evaluator)
    requires IntegerEvaluator(ev)
    ensures EvaluateBinary(Add, a, b, ev) ==
      if Evaluate(a, ev).Some? && Evaluate(b, ev).Some? then Some(Evaluate(a, ev).value + Evaluate(b, ev).value)
      else None
    ensures EvaluateBinary(Mul, a, b, ev) ==
      if Evaluate(a, ev).Some? && Evaluate(b, ev).Some? then Some(Evaluate(a, ev).value * Evaluate(b, ev).value)
      else None
  {
    var v, w := Evaluate(a, ev), Evaluate(b, ev);
    if v.Some? && w.Some? {
      assert ev.onNode(Add, [v.value, w.value]) == Some(v.value + w.value);
      assert ev.onNode(Mul, [v.value, w.value]) == Some(v.value * w.value);
    }
  }

  /** A binary node and what a rule makes of it, given operands worth the same. */
  lemma SumKeepsMeaning(rule: Rule, tag: Tag, cs: seq<Expr>, ts: seq<Expr>, ev: Evaluator)
    requires IntegerEvaluator(ev) && Exact(rule) && |cs| == |ts| == 2
    requires Evaluate(ts[0], ev) == Evaluate(cs[0], ev) && Evaluate(ts[1], ev) == Evaluate(cs[1], ev)
    ensures Evaluate(OnNode(rule, tag, cs, ts), ev) == Evaluate(Node(tag, cs), ev)
  {
    hide EvaluateBinary, IntegerEvaluator, ShapeOf, Transform;
    var a, b := ts[0], ts[1];
    var node, swapped := Node(tag, cs), Node(tag, [cs[1], cs[0]]);
    EvaluateNode(node, ev);
    EvaluateNode(swapped, ev);
    SumsEvaluate(cs[0], cs[1], ev);
    SumsEvaluate(cs[1], cs[0], ev);
    if IsArithmetic(a) { NumbersEvaluate(a, ev); }
    if IsArithmetic(b) { NumbersEvaluate(b, ev); }
    if a.Num? && b.Num? {
      NumbersEvaluate(Num(Promoted(a.width, b.width), a.value + b.value), ev);
      NumbersEvaluate(Num(Promoted(a.width, b.width), a.value * b.value), ev);
    }
  }

  lemma ProductKeepsMeaning(cs: seq<Expr>, ts: seq<Expr>, ev: Evaluator)
    requires IntegerEvaluator(ev) && |cs| == |ts| == 2
    requires Evaluate(cs[0], ev).Some? && Evaluate(ts[0], ev) == Evaluate(cs[0], ev)
    requires Evaluate(cs[1], ev).Some? && Evaluate(ts[1], ev) == Evaluate(cs[1], ev)
    ensures Evaluate(OnMulIdentity(Mul, cs, ts), ev) == Evaluate(Node(Mul, cs), ev)
  {
    hide EvaluateBinary, IntegerEvaluator, ShapeOf, Transform;
    var a, b := ts[0], ts[1];
    EvaluateNode(Node(Mul, cs), ev);
    SumsEvaluate(cs[0], cs[1], ev);
    if IsArithmetic(a) { NumbersEvaluate(a, ev); }
    if IsArithmetic(b) { NumbersEvaluate(b, ev); }
  }

  lemma BinaryOperands(tag: Tag, cs: seq<Expr>, ev: Evaluator)
    requires |cs| == 2 && Evaluate(Node(tag, cs), ev).Some?
    ensures Evaluate(cs[0], ev).Some? && Evaluate(cs[1], ev).Some?
  {
    EvaluateNode(Node(tag, cs), ev);
  }

  lemma NegationEvaluates(t: Expr, ev: Evaluator)
    requires IntegerEvaluator(ev) && t.Num?
    ensures EvaluateUnary(Neg, t, ev) == Some(-t.value)
  {
    NumbersEvaluate(t, ev);
    assert ev.onNode(Neg, [t.value]) == Some(-t.value);
  }

  lemma VariantsEvaluate(alternatives: seq<Shape>, e: Expr, ev: Evaluator)
    ensures Evaluate(Carrier(alternatives, e), ev) == Evaluate(e, ev)
  {
  }

  lemma NegationKeepsMeaning(a: Expr, t: Expr, ev: Evaluator)
    requires IntegerEvaluator(ev) && Evaluate(t, ev) == Evaluate(a, ev)
    ensures Evaluate(OnConstantFold(Neg, [a], [t]), ev) == Evaluate(Node(Neg, [a]), ev)
  {
    hide IntegerEvaluator, ShapeOf, Evaluate, EvaluateBinary, Promoted;
    var node := Node(Neg, [a]);
    EvaluateNode(node, ev);
    if t.Num? {
      NegationEvaluates(t, ev);
      var negated := Num(Promoted(t.width, t.width), -t.value);
      NumbersEvaluate(negated, ev);
      VariantsEvaluate([ShapeOf(node), ShapeOf(negated), ShapeOf(t)], negated, ev);
    } else {
      VariantsEvaluate([ShapeOf(node), NodeShape(Neg, [ShapeOf(t)]), ShapeOf(t)], node, ev);
    }
  }

  /** Multiplication by zero forgets an undefined factor; otherwise it is exact too. */
  lemma {:induction false} TransformKeepsMeaning(rule: Rule, e: Expr, ev: Evaluator)
    requires IntegerEvaluator(ev) && rule != StrengthReduction
    ensures Exact(rule) || Evaluate(e, ev).Some? ==> Evaluate(Transform(rule, e), ev) == Evaluate(e, ev)
  {
    match e
    case Carrier(_, x) => TransformKeepsMeaning(rule, x, ev);
    case Node(tag, cs) =>
      if |cs| == 1 {
        TransformKeepsMeaning(rule, cs[0], ev);
        UnaryKeepsMeaning(rule, tag, cs[0], ev);
        assert cs == [cs[0]];
      } else if |cs| == 2 {
        TransformKeepsMeaning(rule, cs[0], ev);
        TransformKeepsMeaning(rule, cs[1], ev);
        TransformBinary(rule, e);
        var ts := [Transform(rule, cs[0]), Transform(rule, cs[1])];
        if Exact(rule) {
          SumKeepsMeaning(rule, tag, cs, ts, ev);
        } else if tag == Mul && Evaluate(e, ev).Some? {
          BinaryOperands(tag, cs, ev);
          ProductKeepsMeaning(cs, ts, ev);
        }
      }
    case _ =>
  }

  lemma UnaryKeepsMeaning(rule: Rule, tag: Tag, a: Expr, ev: Evaluator)
    requires IntegerEvaluator(ev) && rule != StrengthReduction
    requires Exact(rule) || Evaluate(a, ev).Some? ==> Evaluate(Transform(rule, a), ev) == Evaluate(a, ev)
    ensures Exact(rule) || Evaluate(Node(tag, [a]), ev).Some? ==>
      Evaluate(Transform(rule, Node(tag, [a])), ev) == Evaluate(Node(tag, [a]), ev)
  {
    TransformUnary(rule, Node(tag, [a]));
    if rule == ConstantFold && tag == Neg { NegationKeepsMeaning(a, Transform(rule, a), ev); }
  }

  lemma TransformUnary(rule: Rule, e: Expr)
    requires e.Node? && |e.children| == 1
    ensures Transform(rule, e) == OnNode(rule, e.tag, e.children, [Transform(rule, e.children[0])])
  {
    assert [Transform(rule, e.children[0])]
        == seq(|e.children|, i requires 0 <= i < |e.children| => Transform(rule, e.children[i]));
  }

  lemma RewriteKeepsMeaning(rule: Rule, e: Expr, ev: Evaluator)
    requires IntegerEvaluator(ev) && rule != StrengthReduction
    ensures Exact(rule) || Evaluate(e, ev).Some? ==> Evaluate(RewriteOnce(rule, e), ev) == Evaluate(e, ev)
  {
    TransformKeepsMeaning(rule, e, ev);
  }

  lemma TransformBinary(rule: Rule, e: Expr)
    requires e.Node? && |e.children| == 2
    ensures Transform(rule, e)
         == OnNode(rule, e.tag, e.children, [Transform(rule, e.children[0]), Transform(rule, e.children[1])])
  {
    assert [Transform(rule, e.children[0]), Transform(rule, e.children[1])]
        == seq(|e.children|, i requires 0 <= i < |e.children| => Transform(rule, e.children[i]));
  }

  /** The products that multiplication by zero, perhaps after multiplications by one,
      takes the place of. */
  predicate Collapses(e: Expr)
  {
    match e
    case Carrier(_, x) => Collapses(x)
    case Node(tag, cs) =>
      tag == Mul && |cs| == 2 &&
      var a, b := Peel(cs[0]), Peel(cs[1]);
      if IsNumber(b, 0) then true
      else if IsNumber(b, 1) then Collapses(cs[0])
      else if IsNumber(a, 0) then true
      else IsNumber(a, 1) && Collapses(cs[1])
    case _ => false
  }

  /** Numbers stay as they are, and nothing else becomes one. */
  lemma {:induction false} NumbersUntouched(e: Expr, v: int)
    ensures IsNumber(Transform(MulIdentity, e), v) <==> IsNumber(Peel(e), v)
  {
    if e.Carrier? { NumbersUntouched(e.active, v); }
  }

  lemma {:induction false} PeelKeepsValue(e: Expr, ev: Evaluator)
    ensures Evaluate(Peel(e), ev) == Evaluate(e, ev)
  {
    if e.Carrier? { PeelKeepsValue(e.active, ev); }
  }

  /** An undefined expression becomes defined exactly if it is such a product. */
  lemma {:induction false} UndefinedCollapses(e: Expr, ev: Evaluator)
    requires IntegerEvaluator(ev) && Evaluate(e, ev).None?
    ensures Evaluate(Transform(MulIdentity, e), ev).Some? <==> Collapses(e)
  {
    if e.Carrier? {
      UndefinedCollapses(e.active, ev);
    } else if e.Node? && e.tag == Mul && |e.children| == 2 {
      var x, y := e.children[0], e.children[1];
      UndefinedFactor(e, ev);
      if Evaluate(x, ev).None? { UndefinedCollapses(x, ev); }
      if Evaluate(y, ev).None? { UndefinedCollapses(y, ev); }
      ProductCollapses(e, ev);
    } else if e.Node? {
      if |e.children| == 2 { TransformBinary(MulIdentity, e); }
      if |e.children| == 1 { TransformUnary(MulIdentity, e); }
    }
  }

  lemma UndefinedFactor(e: Expr, ev: Evaluator)
    requires IntegerEvaluator(ev) && e.Node? && e.tag == Mul && |e.children| == 2 && Evaluate(e, ev).None?
    ensures var x, y := e.children[0], e.children[1];
      && (Evaluate(x, ev).None? || Evaluate(y, ev).None?)
      && (IsArithmetic(Peel(x)) ==> Evaluate(y, ev).None?)
      && (IsArithmetic(Peel(y)) ==> Evaluate(x, ev).None?)
      && !(IsArithmetic(Peel(x)) && IsArithmetic(Peel(y)))
  {
    hide Evaluate, EvaluateBinary, IntegerEvaluator;
    var x, y := e.children[0], e.children[1];
    EvaluateNode(e, ev);
    SumsEvaluate(x, y, ev);
    PeelKeepsValue(x, ev); PeelKeepsValue(y, ev);
    if IsArithmetic(Peel(x)) { NumbersEvaluate(Peel(x), ev); }
    if IsArithmetic(Peel(y)) { NumbersEvaluate(Peel(y), ev); }
  }

  lemma ProductCollapses(e: Expr, ev: Evaluator)
    requires IntegerEvaluator(ev) && e.Node? && e.tag == Mul && |e.children| == 2 && Evaluate(e, ev).None?
    requires forall x | x in e.children && Evaluate(x, ev).None? ::
               Evaluate(Transform(MulIdentity, x), ev).Some? <==> Collapses(x)
    ensures Evaluate(Transform(MulIdentity, e), ev).Some? <==> Collapses(e)
  {
    hide Transform, Evaluate, IntegerEvaluator, ShapeOf;
    var x, y := e.children[0], e.children[1];
    var a, b := Transform(MulIdentity, x), Transform(MulIdentity, y);
    UndefinedFactor(e, ev);
    TransformBinary(MulIdentity, e);
    NumbersUntouched(x, 0); NumbersUntouched(x, 1); NumbersUntouched(y, 0); NumbersUntouched(y, 1);
    if IsNumber(a, 0) { NumbersEvaluate(a, ev); }
    if IsNumber(b, 0) { NumbersEvaluate(b, ev); }
    var alternatives := [ShapeOf(e), ShapeOf(a), ShapeOf(b)];
    VariantsEvaluate(alternatives, a, ev);
    VariantsEvaluate(alternatives, b, ev);
    VariantsEvaluate(alternatives, e, ev);
  }

  /** Exactly when multiply-identity keeps meaning, defined or not. */
  lemma MulIdentityMeaning(e: Expr, ev: Evaluator)
    requires IntegerEvaluator(ev)
    ensures Evaluate(Transform(MulIdentity, e), ev) == Evaluate(e, ev) <==> Evaluate(e, ev).Some? || !Collapses(e)
  {
    TransformKeepsMeaning(MulIdentity, e, ev);
    if Evaluate(e, ev).None? { UndefinedCollapses(e, ev); }
  }

  /** Such an undefined factor that disappears. */
  lemma MulIdentityForgets(x: Expr, ev: Evaluator)
    requires IntegerEvaluator(ev) && Evaluate(x, ev).None?
    ensures var e := Node(Mul, [x, Num(2, 0)]);
      Collapses(e) && Evaluate(e, ev).None? && Evaluate(RewriteOnce(MulIdentity, e), ev) == Some(0)
  {
    var e := Node(Mul, [x, Num(2, 0)]);
    EvaluateNode(e, ev);
    TransformBinary(MulIdentity, e);
    assert ev.onTerminal(Num(2, 0)) == Some(ArithmeticValue(Num(2, 0)));
  }
}
