/** Expression trees of the embedded language: what a C++ expression object is
    made of, when two of them count as equal, and how they are hashed. */
module Exprs {
  import opened Wrappers
  import Bits

  datatype Tag =
    | Add | Sub | Mul | Div | Mod | Neg | Subscript
    | Eq | Ne | Lt | Le | Gt | Ge
    | And | Or | Not
    | BitAnd | BitOr | BitXor | BitNot | Shl | Shr
    | If | While | For | Let | Seq | Call
    | Cast | Sizeof | Deref | Addr | Lambda | Return

  /** The C++ type of an expression. A variant's type lists its alternatives
      and does not say which of them is active. */
  datatype Shape =
    | NumShape(width: nat)
    | OpaqueShape(ty: nat)
    | HeldShape(of: Shape)
    | RefShape(of: Shape)
    | NodeShape(tag: Tag, children: seq<Shape>)
    | VariantShape(alternatives: seq<Shape>)

  /** Num is a plain signed integer terminal; Held is a by-value wrapper and Ref
      a by-reference one; Opaque is a terminal of a user type without equality
      (digest is what hashing it yields); Carrier is a variant. */
  datatype Expr =
    | Num(width: nat, value: int)
    | Opaque(ty: nat, digest: Hash)
    | Held(inner: Expr)
    | Ref(address: nat, target: Expr)
    | Node(tag: Tag, children: seq<Expr>)
    | Carrier(alternatives: seq<Shape>, active: Expr)

  function ShapeOf(e: Expr): Shape
  {
    match e
    case Num(w, _) => NumShape(w)
    case Opaque(ty, _) => OpaqueShape(ty)
    case Held(x) => HeldShape(ShapeOf(x))
    case Ref(_, x) => RefShape(ShapeOf(x))
    case Node(tag, cs) => NodeShape(tag, seq(|cs|, i requires 0 <= i < |cs| => ShapeOf(cs[i])))
    case Carrier(alts, _) => VariantShape(alts)
  }

  // ----- structural equality -----

  predicate StructuralEqual(a: Expr, b: Expr)
    decreases a, b
  {
    if a.Carrier? && b.Carrier? then StructuralEqual(a.active, b.active)
    else if a.Carrier? then StructuralEqual(a.active, b)
    else if b.Carrier? then StructuralEqual(a, b.active)
    else if a.Node? && b.Node? then
      a.tag == b.tag && |a.children| == |b.children| &&
      forall i | 0 <= i < |a.children| :: StructuralEqual(a.children[i], b.children[i])
    else if a.Ref? && b.Ref? then SameReference(a, b) || StructuralEqual(a.target, b.target)
    else if a.Held? && b.Held? then StructuralEqual(a.inner, b.inner)
    else if a.Ref? && b.Held? then StructuralEqual(a.target, b.inner)
    else if a.Held? && b.Ref? then StructuralEqual(a.inner, b.target)
    else if a.Ref? && b.Num? then StructuralEqual(a.target, b)
    else if a.Num? && b.Ref? then StructuralEqual(a, b.target)
    else if a.Held? && b.Num? then StructuralEqual(a.inner, b)
    else if a.Num? && b.Held? then StructuralEqual(a, b.inner)
    else a.Num? && b.Num? && a.value == b.value
  }

  /** References of one type to one address: equal without looking further. */
  predicate SameReference(a: Expr, b: Expr)
  {
    a.Ref? && b.Ref? && ShapeOf(a.target) == ShapeOf(b.target) && a.address == b.address
  }

  /** No terminal without equality is held by value. */
  predicate Comparable(e: Expr)
  {
    match e
    case Num(_, _) => true
    case Opaque(_, _) => false
    case Held(x) => Comparable(x)
    case Ref(_, _) => true
    case Node(_, cs) => forall i | 0 <= i < |cs| :: Comparable(cs[i])
    case Carrier(_, x) => Comparable(x)
  }

  /** What memory holds at one moment: one object of each type at each address. */
  type Memory = map<(nat, Shape), Expr>

  /** Every reference in `e` points at the object that memory holds there. */
  predicate InMemory(e: Expr, mem: Memory)
  {
    match e
    case Num(_, _) => true
    case Opaque(_, _) => true
    case Held(x) => InMemory(x, mem)
    case Ref(a, x) => (a, ShapeOf(x)) in mem && mem[(a, ShapeOf(x))] == x && InMemory(x, mem)
    case Node(_, cs) => forall i | 0 <= i < |cs| :: InMemory(cs[i], mem)
    case Carrier(_, x) => InMemory(x, mem)
  }

  lemma {:induction false} EqualReflexive(e: Expr)
    ensures StructuralEqual(e, e) <==> Comparable(e)
  {
    match e
    case Num(_, _) =>
    case Opaque(_, _) =>
    case Held(x) => EqualReflexive(x);
    case Ref(_, _) =>
    case Node(_, cs) =>
      forall i | 0 <= i < |cs| ensures StructuralEqual(cs[i], cs[i]) <==> Comparable(cs[i]) { EqualReflexive(cs[i]); }
    case Carrier(_, x) => EqualReflexive(x);
  }

  lemma {:induction false} EqualSymmetric(a: Expr, b: Expr)
    ensures StructuralEqual(a, b) <==> StructuralEqual(b, a)
    decreases a, b
  {
    if a.Carrier? && b.Carrier? { EqualSymmetric(a.active, b.active); }
    else if a.Carrier? { EqualSymmetric(a.active, b); }
    else if b.Carrier? { EqualSymmetric(a, b.active); }
    else if a.Node? && b.Node? {
      forall i | 0 <= i < |a.children| && i < |b.children|
        ensures StructuralEqual(a.children[i], b.children[i]) <==> StructuralEqual(b.children[i], a.children[i])
      {
        EqualSymmetric(a.children[i], b.children[i]);
      }
    } else if Wrapped(a) && Wrapped(b) { EqualSymmetric(Unwrap(a), Unwrap(b)); }
    else if Wrapped(a) && b.Num? { EqualSymmetric(Unwrap(a), b); }
    else if a.Num? && Wrapped(b) { EqualSymmetric(a, Unwrap(b)); }
  }

  predicate Wrapped(e: Expr) { e.Held? || e.Ref? }

  function Unwrap(e: Expr): Expr
    requires Wrapped(e)
  {
    if e.Held? then e.inner else e.target
  }

  // Numbers compare by value through any number of wrappers and variants.

  function NumberOf(e: Expr): Option<int>
  {
    match e
    case Num(_, v) => Some(v)
    case Opaque(_, _) => None
    case Held(x) => NumberOf(x)
    case Ref(_, x) => NumberOf(x)
    case Node(_, _) => None
    case Carrier(_, x) => NumberOf(x)
  }

  lemma {:induction false} NumbersEqual(a: Expr, b: Expr, mem: Memory)
    requires InMemory(a, mem) && InMemory(b, mem)
    requires NumberOf(a).Some? || NumberOf(b).Some?
    ensures StructuralEqual(a, b) <==> NumberOf(a) == NumberOf(b)
    decreases a, b
  {
    if a.Carrier? && b.Carrier? { NumbersEqual(a.active, b.active, mem); }
    else if a.Carrier? { NumbersEqual(a.active, b, mem); }
    else if b.Carrier? { NumbersEqual(a, b.active, mem); }
    else if Wrapped(a) && Wrapped(b) { NumbersEqual(Unwrap(a), Unwrap(b), mem); }
    else if Wrapped(a) && b.Num? { NumbersEqual(Unwrap(a), b, mem); }
    else if a.Num? && Wrapped(b) { NumbersEqual(a, Unwrap(b), mem); }
  }

  function Peel(e: Expr): (r: Expr)
    ensures !r.Carrier?
  {
    if e.Carrier? then Peel(e.active) else e
  }

  lemma {:induction false} PeelEqual(a: Expr, b: Expr)
    ensures StructuralEqual(a, b) <==> StructuralEqual(Peel(a), Peel(b))
    decreases a, b
  {
    if a.Carrier? && b.Carrier? { PeelEqual(a.active, b.active); }
    else if a.Carrier? { PeelEqual(a.active, b); }
    else if b.Carrier? { PeelEqual(a, b.active); }
  }

  lemma {:induction false} PeelKeeps(e: Expr, mem: Memory)
    requires InMemory(e, mem)
    ensures InMemory(Peel(e), mem) && NumberOf(Peel(e)) == NumberOf(e)
    ensures Peel(e) == e || Peel(e) < e
  {
    if e.Carrier? { PeelKeeps(e.active, mem); }
  }

  lemma {:induction false} EqualTransitive(a: Expr, b: Expr, c: Expr, mem: Memory)
    requires InMemory(a, mem) && InMemory(b, mem) && InMemory(c, mem)
    requires StructuralEqual(a, b) && StructuralEqual(b, c)
    ensures StructuralEqual(a, c)
    decreases a
  {
    hide StructuralEqual, InMemory;
    if NumberOf(a).Some? || NumberOf(b).Some? || NumberOf(c).Some? {
      if NumberOf(a).Some? || NumberOf(b).Some? { NumbersEqual(a, b, mem); }
      if NumberOf(b).Some? || NumberOf(c).Some? { NumbersEqual(b, c, mem); }
      NumbersEqual(a, c, mem);
    } else if a.Carrier? || b.Carrier? || c.Carrier? {
      PeelEqual(a, b); PeelEqual(b, c); PeelEqual(a, c);
      PeelKeeps(a, mem); PeelKeeps(b, mem); PeelKeeps(c, mem);
      EqualTransitiveBare(Peel(a), Peel(b), Peel(c), mem);
    } else {
      EqualTransitiveBare(a, b, c, mem);
    }
  }

  lemma {:induction false} EqualTransitiveBare(a: Expr, b: Expr, c: Expr, mem: Memory)
    requires InMemory(a, mem) && InMemory(b, mem) && InMemory(c, mem)
    requires !a.Carrier? && !b.Carrier? && !c.Carrier?
    requires NumberOf(a).None? && NumberOf(b).None? && NumberOf(c).None?
    requires StructuralEqual(a, b) && StructuralEqual(b, c)
    ensures StructuralEqual(a, c)
    decreases a, 0
  {
    if a.Node? {
      forall i | 0 <= i < |a.children| ensures StructuralEqual(a.children[i], c.children[i]) {
        EqualTransitive(a.children[i], b.children[i], c.children[i], mem);
      }
    } else if !SameReference(a, b) && !SameReference(b, c) {
      EqualTransitive(Unwrap(a), Unwrap(b), Unwrap(c), mem);
    }
  }

  // ----- structural hash -----

  /** A 64-bit hash. */
  datatype Hash = Hash(bits: Bits.Word)

  function HashCombine(h: Hash, x: Hash): Hash
  {
    var mixed := (x.bits + 0x9e3779b97f4a7c15 + h.bits * 64 % Bits.WORD + h.bits / 4) % Bits.WORD;
    Bits.XorIsWord(h.bits, mixed);
    Hash(Bits.Xor(h.bits, mixed))
  }

  function TagSeed(tag: Tag): Hash
  {
    match tag
    case Add => Hash(1)
    case Mul => Hash(2)
    case Neg => Hash(3)
    case Subscript => Hash(4)
    case _ => Hash(9)
  }

  /** `number` is the standard library's hash of an integer. */
  function StructuralHash(e: Expr, number: int -> Hash): Hash
    decreases e, if e.Node? then |e.children| + 1 else 0
  {
    match e
    case Num(_, v) => number(v)
    case Opaque(_, digest) => digest
    case Held(x) => StructuralHash(x, number)
    case Ref(_, x) => StructuralHash(x, number)
    case Node(tag, cs) => HashChildren(TagSeed(tag), e, |cs|, number)
    case Carrier(_, x) => StructuralHash(x, number)
  }

  /** Folds the hashes of the first `n` children of `e` into `h`. */
  function HashChildren(h: Hash, e: Expr, n: nat, number: int -> Hash): Hash
    requires e.Node? && n <= |e.children|
    decreases e, n
  {
    if n == 0 then h
    else HashCombine(HashChildren(h, e, n - 1, number), StructuralHash(e.children[n - 1], number))
  }

  lemma {:induction false} EqualImpliesSameHash(a: Expr, b: Expr, number: int -> Hash, mem: Memory)
    requires InMemory(a, mem) && InMemory(b, mem) && StructuralEqual(a, b)
    ensures StructuralHash(a, number) == StructuralHash(b, number)
    decreases a, b, 1
  {
    if a.Carrier? && b.Carrier? { EqualImpliesSameHash(a.active, b.active, number, mem); }
    else if a.Carrier? { EqualImpliesSameHash(a.active, b, number, mem); }
    else if b.Carrier? { EqualImpliesSameHash(a, b.active, number, mem); }
    else if a.Node? && b.Node? {
      EqualChildrenSameHash(a, b, |a.children|, number, mem);
    } else if Wrapped(a) && Wrapped(b) {
      if !SameReference(a, b) { EqualImpliesSameHash(Unwrap(a), Unwrap(b), number, mem); }
    } else if Wrapped(a) && b.Num? { EqualImpliesSameHash(Unwrap(a), b, number, mem); }
    else if a.Num? && Wrapped(b) { EqualImpliesSameHash(a, Unwrap(b), number, mem); }
  }

  lemma {:induction false} EqualChildrenSameHash(a: Expr, b: Expr, n: nat, number: int -> Hash, mem: Memory)
    requires a.Node? && b.Node? && n <= |a.children| && |a.children| == |b.children| && a.tag == b.tag
    requires InMemory(a, mem) && InMemory(b, mem) && StructuralEqual(a, b)
    ensures HashChildren(TagSeed(a.tag), a, n, number) == HashChildren(TagSeed(b.tag), b, n, number)
    decreases a, b, 0, n
  {
    if n > 0 {
      EqualChildrenSameHash(a, b, n - 1, number, mem);
      EqualImpliesSameHash(a.children[n - 1], b.children[n - 1], number, mem);
    }
  }

  /** The converse fails for every pair of children lists that hash alike under
      two tags without a seed of their own: buckets do collide. */
  lemma {:induction false} UnseededTagsCollide(s: Tag, t: Tag, cs: seq<Expr>, number: int -> Hash)
    requires s != t && TagSeed(s) == TagSeed(t)
    ensures StructuralHash(Node(s, cs), number) == StructuralHash(Node(t, cs), number)
    ensures !StructuralEqual(Node(s, cs), Node(t, cs))
  {
    SameFold(Node(s, cs), Node(t, cs), TagSeed(s), |cs|, number);
  }

  lemma {:induction false} SameFold(a: Expr, b: Expr, h: Hash, n: nat, number: int -> Hash)
    requires a.Node? && b.Node? && a.children == b.children && n <= |a.children|
    ensures HashChildren(h, a, n, number) == HashChildren(h, b, n, number)
  {
    if n > 0 { SameFold(a, b, h, n - 1, number); }
  }
}
