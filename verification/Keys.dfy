/** What structural equality and the type of an expression come down to: keys that
    are equal exactly if the expressions are. */
module Keys {
  import opened Exprs
  import opened Bits

  /** All that comparing looks at. A wrapper around a number does not show; a reference
      to something that does not equal itself is known by its address and type alone. */
  datatype Key =
    | NumberKey(value: int)
    | WrapperKey(inner: Key)
    | AddressKey(address: nat, of: Shape)
    | NodeKey(tag: Tag, children: seq<Key>)
    | NoKey

  function KeyOf(e: Expr): Key
  {
    match e
    case Num(_, v) => NumberKey(v)
    case Opaque(_, _) => NoKey
    case Held(x) => Wrapping(KeyOf(x))
    case Ref(a, x) => if Comparable(x) then Wrapping(KeyOf(x)) else AddressKey(a, ShapeOf(x))
    case Node(tag, cs) => NodeKey(tag, seq(|cs|, i requires 0 <= i < |cs| => KeyOf(cs[i])))
    case Carrier(_, x) => KeyOf(x)
  }

  function Wrapping(k: Key): Key
  {
    if k.NumberKey? then k else WrapperKey(k)
  }

  /** Two expressions are equal exactly if both equal themselves and their keys agree. */
  lemma {:induction false} EqualIffSameKey(a: Expr, b: Expr, mem: Memory)
    requires InMemory(a, mem) && InMemory(b, mem)
    ensures StructuralEqual(a, b) <==> Comparable(a) && Comparable(b) && KeyOf(a) == KeyOf(b)
    decreases a, b
  {
    if a.Carrier? && b.Carrier? { EqualIffSameKey(a.active, b.active, mem); }
    else if a.Carrier? { EqualIffSameKey(a.active, b, mem); }
    else if b.Carrier? { EqualIffSameKey(a, b.active, mem); }
    else if a.Node? && b.Node? { NodesByKey(a, b, mem); }
    else if Wrapped(a) && Wrapped(b) {
      if !SameReference(a, b) { EqualIffSameKey(Unwrap(a), Unwrap(b), mem); }
    }
    else if Wrapped(a) && b.Num? { EqualIffSameKey(Unwrap(a), b, mem); }
    else if a.Num? && Wrapped(b) { EqualIffSameKey(a, Unwrap(b), mem); }
  }

  lemma {:induction false} NodesByKey(a: Expr, b: Expr, mem: Memory)
    requires a.Node? && b.Node? && InMemory(a, mem) && InMemory(b, mem)
    ensures StructuralEqual(a, b) <==> Comparable(a) && Comparable(b) && KeyOf(a) == KeyOf(b)
    decreases a, b, 0
  {
    var x, y := KeyOf(a), KeyOf(b);
    assert x == y <==> x.tag == y.tag && x.children == y.children;
    forall i | 0 <= i < |a.children| && i < |b.children|
      ensures StructuralEqual(a.children[i], b.children[i]) <==>
        Comparable(a.children[i]) && Comparable(b.children[i]) && x.children[i] == y.children[i]
    {
      EqualIffSameKey(a.children[i], b.children[i], mem);
    }
  }

  /** So objects without equality are told apart by where they are, not by what they
      hold, and held by value they equal nothing. */
  lemma OpaqueByAddress(x: Expr, y: Expr, a: nat, b: nat)
    requires x.Opaque? && y.Opaque?
    ensures StructuralEqual(Ref(a, x), Ref(b, y)) <==> a == b && x.ty == y.ty
    ensures !StructuralEqual(Ref(a, x), Held(y)) && !StructuralEqual(Held(x), Held(y)) && !StructuralEqual(x, y)
  {
  }

  // ----- types -----

  /** One C++ type: the same number type, user type or alternatives, and for everything
      else the same make of parts of one type. */
  predicate SameType(a: Expr, b: Expr)
  {
    match (a, b)
    case (Num(v, _), Num(w, _)) => v == w
    case (Opaque(s, _), Opaque(t, _)) => s == t
    case (Held(x), Held(y)) => SameType(x, y)
    case (Ref(_, x), Ref(_, y)) => SameType(x, y)
    case (Node(s, cs), Node(t, ds)) => s == t && |cs| == |ds| && forall i | 0 <= i < |cs| :: SameType(cs[i], ds[i])
    case (Carrier(s, _), Carrier(t, _)) => s == t
    case _ => false
  }

  lemma {:induction false} ShapesTell(a: Expr, b: Expr)
    ensures ShapeOf(a) == ShapeOf(b) <==> SameType(a, b)
  {
    if a.Held? && b.Held? { ShapesTell(a.inner, b.inner); }
    else if a.Ref? && b.Ref? { ShapesTell(a.target, b.target); }
    else if a.Node? && b.Node? {
      var s, t := ShapeOf(a), ShapeOf(b);
      assert s == t <==> s.tag == t.tag && s.children == t.children;
      forall i | 0 <= i < |a.children| && i < |b.children|
        ensures s.children[i] == t.children[i] <==> SameType(a.children[i], b.children[i])
      {
        ShapesTell(a.children[i], b.children[i]);
      }
    }
  }

  // ----- hashes -----

  /** The tags with a seed of their own. */
  predicate Seeded(tag: Tag) { tag == Add || tag == Mul || tag == Neg || tag == Subscript }

  /** All others share one seed. */
  lemma SeedsShared(s: Tag, t: Tag)
    ensures TagSeed(s) == TagSeed(t) <==> s == t || (!Seeded(s) && !Seeded(t))
  {
    SeedNumber(s);
    SeedNumber(t);
    hide TagSeed;
  }

  lemma SeedNumber(tag: Tag)
    ensures TagSeed(tag) == if tag == Add then Hash(1) else if tag == Mul then Hash(2) else if tag == Neg then Hash(3)
                            else if tag == Subscript then Hash(4) else Hash(9)
  {
  }

  /** A node's hash starts from its tag's seed and takes in one child after the other. */
  lemma HashGrows(tag: Tag, cs: seq<Expr>, c: Expr, number: int -> Hash)
    ensures StructuralHash(Node(tag, []), number) == TagSeed(tag)
    ensures StructuralHash(Node(tag, cs + [c]), number)
         == HashCombine(StructuralHash(Node(tag, cs), number), StructuralHash(c, number))
  {
    hide HashCombine, TagSeed;
    PrefixHash(Node(tag, cs + [c]), Node(tag, cs), TagSeed(tag), |cs|, number);
  }

  lemma {:induction false} PrefixHash(a: Expr, b: Expr, h: Hash, n: nat, number: int -> Hash)
    requires a.Node? && b.Node? && n <= |a.children| && n <= |b.children|
    requires forall i | 0 <= i < n :: a.children[i] == b.children[i]
    ensures HashChildren(h, a, n, number) == HashChildren(h, b, n, number)
  {
    hide HashCombine;
    if n > 0 { PrefixHash(a, b, h, n - 1, number); }
  }

  /** Nodes that differ in their last child only collide exactly if those children do. */
  lemma LastChildShows(tag: Tag, cs: seq<Expr>, c: Expr, d: Expr, number: int -> Hash)
    ensures StructuralHash(Node(tag, cs + [c]), number) == StructuralHash(Node(tag, cs + [d]), number) <==>
      StructuralHash(c, number) == StructuralHash(d, number)
  {
    hide StructuralHash, HashCombine;
    HashGrows(tag, cs, c, number);
    HashGrows(tag, cs, d, number);
    CombiningLosesNothing(StructuralHash(Node(tag, cs), number), StructuralHash(c, number), StructuralHash(d, number));
  }

  lemma CombiningLosesNothing(h: Hash, x: Hash, y: Hash)
    ensures HashCombine(h, x) == HashCombine(h, y) <==> x == y
  {
    CombineUndone(h, x);
    CombineUndone(h, y);
    hide HashCombine;
    if HashCombine(h, x) == HashCombine(h, y) {
      var k := 0x9e3779b97f4a7c15 + h.bits * 64 % WORD + h.bits / 4;
      SumsDiffer(x.bits, y.bits, k);
    }
  }

  /** Combining exclusive-ors the old hash with the sum of the new one, a constant and
      two shifts of the old one. */
  lemma CombineUndone(h: Hash, x: Hash)
    ensures Xor(h.bits, HashCombine(h, x).bits)
         == (x.bits + (0x9e37_79b9_7f4a_7c15 + h.bits * 64 % WORD + h.bits / 4)) % WORD
  {
    hide Xor;
    XorTwice(h.bits, (x.bits + 0x9e3779b97f4a7c15 + h.bits * 64 % WORD + h.bits / 4) % WORD);
  }

  lemma SumsDiffer(x: Word, y: Word, k: nat)
    requires (x + k) % WORD == (y + k) % WORD
    ensures x == y
  {
    var q, r := (x + k) / WORD, (y + k) / WORD;
    assert x + k == WORD * q + (x + k) % WORD && y + k == WORD * r + (y + k) % WORD;
    assert x - y == WORD * (q - r);
  }
}
