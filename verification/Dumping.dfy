/** The prefix printer, what its output tells, and when it tells expressions apart:
    with names for all tags, exactly when they are not structurally equal. */
module Dumping {
  import opened Wrappers
  import opened Exprs

  /** Tags without an entry print as one placeholder. */
  predicate Named(tag: Tag)
  {
    TagName(tag) != "<tag>"
  }

  function TagName(tag: Tag): string
  {
    match tag
    case Add => "+" case Sub => "-" case Mul => "*" case Div => "/" case Mod => "%" case Neg => "neg"
    case Eq => "==" case Ne => "!=" case Lt => "<" case Le => "<=" case Gt => ">" case Ge => ">="
    case And => "&&" case Or => "||" case Not => "!"
    case BitAnd => "&" case BitOr => "|" case BitXor => "^" case BitNot => "~" case Shl => "<<" case Shr => ">>"
    case Subscript => "idx"
    case _ => "<tag>"
  }

  function Digit(d: nat): char
    requires d < 10
  {
    '0' + d as char
  }

  function NatToString(n: nat): string
  {
    if n < 10 then [Digit(n)] else NatToString(n / 10) + [Digit(n % 10)]
  }

  function IntToString(v: int): string
  {
    if v < 0 then "-" + NatToString(-v) else NatToString(v)
  }

  function Dump(e: Expr): string
    decreases e, if e.Node? then |e.children| + 1 else 0
  {
    match e
    case Num(_, v) => IntToString(v)
    case Opaque(_, _) => "<term>"
    case Held(x) => Dump(x)
    case Ref(_, x) => Dump(x)
    case Carrier(_, x) => Dump(x)
    case Node(tag, cs) => "(" + TagName(tag) + DumpFrom(e, 0)
  }

  /** The children of a node from the `i`th on, and the closing parenthesis. */
  function DumpFrom(e: Expr, i: nat): string
    requires e.Node? && i <= |e.children|
    decreases e, |e.children| - i
  {
    if i == |e.children| then ")" else " " + Dump(e.children[i]) + DumpFrom(e, i + 1)
  }

  /** What printing keeps of a tag: all, if it has a name. */
  function BlurTag(tag: Tag): Tag { if Named(tag) then tag else If }

  /** What printing keeps of an expression: wrappers and variants, types, unnamed tags
      and what opaque terminals hold are forgotten. */
  function Blur(e: Expr): Expr
  {
    match e
    case Num(_, v) => Num(0, v)
    case Opaque(_, _) => Opaque(0, Hash(0))
    case Held(x) => Blur(x)
    case Ref(_, x) => Blur(x)
    case Carrier(_, x) => Blur(x)
    case Node(tag, cs) => Node(BlurTag(tag), seq(|cs|, i requires 0 <= i < |cs| => Blur(cs[i])))
  }

  /** Every leaf is an integer, plain or wrapped. */
  predicate IntegerLeaves(e: Expr)
  {
    match e
    case Node(_, cs) => forall i | 0 <= i < |cs| :: IntegerLeaves(cs[i])
    case Carrier(_, x) => IntegerLeaves(x)
    case _ => NumberOf(e).Some?
  }

  /** Moreover every tag has a name. */
  predicate Printable(e: Expr)
  {
    match e
    case Node(tag, cs) => Named(tag) && forall i | 0 <= i < |cs| :: Printable(cs[i])
    case Carrier(_, x) => Printable(x)
    case _ => NumberOf(e).Some?
  }

  // ----- reading numbers -----

  /** The number a row of decimal digits stands for. */
  function Decimal(s: string): int
  {
    if s == "" then 0 else 10 * Decimal(s[..|s| - 1]) + (s[|s| - 1] as int - '0' as int)
  }

  predicate IsDigits(s: string) { s != "" && forall i | 0 <= i < |s| :: '0' <= s[i] <= '9' }

  function IntOf(s: string): Option<int>
  {
    if IsDigits(s) then Some(Decimal(s))
    else if s != "" && s[0] == '-' && IsDigits(s[1..]) then Some(-Decimal(s[1..]))
    else None
  }

  lemma {:induction false} NatTextMeaning(n: nat)
    ensures IsDigits(NatToString(n)) && Decimal(NatToString(n)) == n
    ensures NatToString(n)[0] == '0' ==> n == 0 && |NatToString(n)| == 1
  {
    var s := NatToString(n);
    if n >= 10 {
      NatTextMeaning(n / 10);
      assert s[..|s| - 1] == NatToString(n / 10) && s[0] == NatToString(n / 10)[0];
    } else {
      assert s[..0] == "";
    }
  }

  /** The text of a number denotes it, has a sign exactly if it is negative, and no
      leading zero unless it is zero. */
  lemma IntTextMeaning(v: int)
    ensures IntOf(IntToString(v)) == Some(v)
    ensures IntToString(v) != "" && (IntToString(v)[0] == '-' <==> v < 0)
    ensures var digits := if v < 0 then IntToString(v)[1..] else IntToString(v);
      IsDigits(digits) && (digits[0] == '0' ==> digits == "0")
  {
    hide NatToString;
    var n := if v < 0 then -v else v;
    NatTextMeaning(n);
    var s := IntToString(v);
    assert v < 0 ==> s[1..] == NatToString(n);
  }

  // ----- reading expressions -----

  predicate IsDelimiter(c: char) { c == ' ' || c == ')' }

  predicate Word(s: string) { forall i | 0 <= i < |s| :: !IsDelimiter(s[i]) }

  predicate Delimited(s: string) { s == "" || IsDelimiter(s[0]) }

  /** How many characters come before the first delimiter. */
  function WordLength(s: string): (n: nat)
    ensures n <= |s|
  {
    if Delimited(s) then 0 else 1 + WordLength(s[1..])
  }

  lemma {:induction false} WordEnds(w: string, t: string)
    requires Word(w) && Delimited(t)
    ensures WordLength(w + t) == |w| && (w + t)[..|w|] == w && (w + t)[|w|..] == t
  {
    if w == "" {
      assert w + t == t;
    } else {
      assert (w + t)[1..] == w[1..] + t;
      WordEnds(w[1..], t);
    }
  }

  /** The tag a name belongs to; the placeholder is read as one of those without a name. */
  function TagOf(name: string): Option<Tag>
  {
    if |name| == 1 then TagOfOne(name[0])
    else if |name| == 2 then TagOfTwo(name[0], name[1])
    else if |name| == 3 then
      if name[0] == 'n' && name[1] == 'e' && name[2] == 'g' then Some(Neg)
      else if name[0] == 'i' && name[1] == 'd' && name[2] == 'x' then Some(Subscript)
      else None
    else if name == "<tag>" then Some(If)
    else None
  }

  function TagOfOne(c: char): Option<Tag>
  {
    match c
    case '+' => Some(Add) case '-' => Some(Sub) case '*' => Some(Mul) case '/' => Some(Div) case '%' => Some(Mod)
    case '<' => Some(Lt) case '>' => Some(Gt) case '!' => Some(Not)
    case '&' => Some(BitAnd) case '|' => Some(BitOr) case '^' => Some(BitXor) case '~' => Some(BitNot)
    case _ => None
  }

  function TagOfTwo(c: char, d: char): Option<Tag>
  {
    match (c, d)
    case ('=', '=') => Some(Eq) case ('!', '=') => Some(Ne) case ('<', '=') => Some(Le) case ('>', '=') => Some(Ge)
    case ('&', '&') => Some(Tag.And) case ('|', '|') => Some(Tag.Or) case ('<', '<') => Some(Shl)
    case ('>', '>') => Some(Shr)
    case _ => None
  }

  lemma TagNamesUnique(tag: Tag)
    ensures TagOf(TagName(tag)) == Some(BlurTag(tag))
  {
  }

  lemma TagNameIsWord(tag: Tag)
    ensures Word(TagName(tag))
  {
  }

  lemma BlurTagPrints(tag: Tag)
    ensures TagName(BlurTag(tag)) == TagName(tag)
  {
  }

  datatype Parsed = Parsed(expr: Expr, rest: string)

  /** Reads one expression off the front of a text: a number, an unprintable terminal,
      or a parenthesis, a name, and children with one space before each. */
  function Parse(s: string): (r: Option<Parsed>)
    ensures r.Some? ==> |r.value.rest| <= |s|
    decreases |s|, 0
  {
    if s != "" && s[0] == '(' then
      var n := WordLength(s[1..]);
      var tag := TagOf(s[1..][..n]);
      if tag.Some? then ParseChildren(tag.value, [], s[1..][n..]) else None
    else
      var word, rest := s[..WordLength(s)], s[WordLength(s)..];
      if word == "<term>" then Some(Parsed(Opaque(0, Hash(0)), rest))
      else if IntOf(word).Some? then Some(Parsed(Num(0, IntOf(word).value), rest))
      else None
  }

  function ParseChildren(tag: Tag, children: seq<Expr>, s: string): (r: Option<Parsed>)
    ensures r.Some? ==> |r.value.rest| <= |s|
    decreases |s|, 1
  {
    if s == "" then None
    else if s[0] == ')' then Some(Parsed(Node(tag, children), s[1..]))
    else if s[0] == ' ' then
      var child := Parse(s[1..]);
      if child.Some? then ParseChildren(tag, children + [child.value.expr], child.value.rest) else None
    else None
  }

  // ----- printed expressions are read back -----

  lemma LeafText(e: Expr)
    requires e.Num? || e.Opaque?
    ensures Dump(e) != "" && Word(Dump(e)) && Dump(e)[0] != '('
    ensures e.Num? ==> Dump(e) != "<term>" && IntOf(Dump(e)) == Some(e.value)
  {
    if e.Num? {
      IntTextMeaning(e.value);
      NatTextMeaning(if e.value < 0 then -e.value else e.value);
    }
  }

  lemma LeafParses(e: Expr, t: string)
    requires (e.Num? || e.Opaque?) && Delimited(t)
    ensures Parse(Dump(e) + t) == Some(Parsed(Blur(e), t))
  {
    hide IntOf, Delimited, IsDelimiter;
    LeafText(e);
    WordEnds(Dump(e), t);
  }

  lemma NodeText(e: Expr, t: string)
    requires e.Node?
    ensures Dump(e) + t == "(" + (TagName(e.tag) + (DumpFrom(e, 0) + t))
  {
  }

  lemma ChildText(e: Expr, i: nat, t: string)
    requires e.Node? && i < |e.children|
    ensures DumpFrom(e, i) + t == " " + (Dump(e.children[i]) + (DumpFrom(e, i + 1) + t))
  {
  }

  lemma FromDelimited(e: Expr, i: nat, t: string)
    requires e.Node? && i <= |e.children|
    ensures Delimited(DumpFrom(e, i) + t)
  {
  }

  /** What is printed and followed by a delimiter reads back as what printing keeps. */
  lemma {:induction false} ParseBack(e: Expr, t: string)
    requires Delimited(t)
    ensures Parse(Dump(e) + t) == Some(Parsed(Blur(e), t))
    decreases e, 1, 0
  {
    match e
    case Held(x) => ParseBack(x, t);
    case Ref(_, x) => ParseBack(x, t);
    case Carrier(_, x) => ParseBack(x, t);
    case Node(tag, cs) =>
      ParseBackFrom(e, 0, t);
      NodeParses(e, t);
    case _ => LeafParses(e, t);
  }

  lemma NodeParses(e: Expr, t: string)
    requires e.Node?
    requires ParseChildren(BlurTag(e.tag), [], DumpFrom(e, 0) + t) == Some(Parsed(Blur(e), t))
    ensures Parse(Dump(e) + t) == Some(Parsed(Blur(e), t))
  {
    hide Dump, DumpFrom, TagName, TagOf, BlurTag, Blur, ParseChildren, WordLength;
    var from := DumpFrom(e, 0) + t;
    NodeText(e, t);
    FromDelimited(e, 0, t);
    TagNameIsWord(e.tag);
    TagNamesUnique(e.tag);
    WordEnds(TagName(e.tag), from);
    var text := Dump(e) + t;
    assert text[0] == '(' && text[1..] == TagName(e.tag) + from;
  }

  lemma OneChildParses(tag: Tag, children: seq<Expr>, c: Expr, text: string, rest: string)
    requires Parse(text) == Some(Parsed(c, rest))
    ensures ParseChildren(tag, children, " " + text) == ParseChildren(tag, children + [c], rest)
  {
    hide Parse;
    assert (" " + text)[1..] == text;
  }

  lemma NoChildParses(tag: Tag, children: seq<Expr>, t: string)
    ensures ParseChildren(tag, children, ")" + t) == Some(Parsed(Node(tag, children), t))
  {
    assert (")" + t)[1..] == t;
  }

  lemma BlurredChildren(e: Expr) returns (cs: seq<Expr>)
    requires e.Node?
    ensures Blur(e) == Node(BlurTag(e.tag), cs) && |cs| == |e.children|
    ensures forall i | 0 <= i < |cs| :: cs[i] == Blur(e.children[i])
  {
    cs := Blur(e).children;
  }

  lemma {:induction false} ParseBackFrom(e: Expr, i: nat, t: string)
    requires e.Node? && i <= |e.children|
    ensures ParseChildren(BlurTag(e.tag), Blur(e).children[..i], DumpFrom(e, i) + t) == Some(Parsed(Blur(e), t))
    decreases e, 0, |e.children| - i
  {
    hide Parse, ParseChildren, Blur, BlurTag, Dump;
    var cs := BlurredChildren(e);
    if i == |e.children| {
      assert cs[..i] == cs;
      NoChildParses(BlurTag(e.tag), cs, t);
    } else {
      var rest := DumpFrom(e, i + 1) + t;
      ChildText(e, i, t);
      FromDelimited(e, i + 1, t);
      ParseBack(e.children[i], rest);
      OneChildParses(BlurTag(e.tag), cs[..i], cs[i], Dump(e.children[i]) + rest, rest);
      assert cs[..i + 1] == cs[..i] + [cs[i]];
      ParseBackFrom(e, i + 1, t);
    }
  }

  /** So a text that starts with a printed expression determines what printing keeps of
      it, and the text that follows. */
  lemma ReadBack(a: Expr, s: string, b: Expr, t: string)
    requires Delimited(s) && Delimited(t) && Dump(a) + s == Dump(b) + t
    ensures Blur(a) == Blur(b) && s == t
  {
    ParseBack(a, s);
    ParseBack(b, t);
  }

  lemma {:induction false} BlurPrints(e: Expr)
    ensures Dump(Blur(e)) == Dump(e)
    decreases e, 1, 0
  {
    match e
    case Num(_, _) =>
    case Opaque(_, _) =>
    case Held(x) => BlurPrints(x);
    case Ref(_, x) => BlurPrints(x);
    case Carrier(_, x) => BlurPrints(x);
    case Node(tag, _) =>
      BlurTagPrints(tag);
      BlurPrintsFrom(e, 0);
  }

  lemma {:induction false} BlurPrintsFrom(e: Expr, i: nat)
    requires e.Node? && i <= |e.children|
    ensures DumpFrom(Blur(e), i) == DumpFrom(e, i)
    decreases e, 0, |e.children| - i
  {
    if i < |e.children| {
      BlurPrints(e.children[i]);
      BlurPrintsFrom(e, i + 1);
    }
  }

  /** When any two expressions print alike: exactly when printing keeps the same of both. */
  lemma PrintsAlikeIffBlursSame(a: Expr, b: Expr)
    ensures Dump(a) == Dump(b) <==> Blur(a) == Blur(b)
  {
    BlurPrints(a); BlurPrints(b);
    if Dump(a) == Dump(b) {
      assert Dump(a) + "" == Dump(b) + "";
      ReadBack(a, "", b, "");
    }
  }

  /** Equal expressions print alike, printable or not. */
  lemma {:induction false} EqualPrintsAlike(a: Expr, b: Expr, mem: Memory)
    requires InMemory(a, mem) && InMemory(b, mem) && StructuralEqual(a, b)
    ensures Dump(a) == Dump(b)
    decreases a, b, 1, 0
  {
    if a.Carrier? && b.Carrier? { EqualPrintsAlike(a.active, b.active, mem); }
    else if a.Carrier? { EqualPrintsAlike(a.active, b, mem); }
    else if b.Carrier? { EqualPrintsAlike(a, b.active, mem); }
    else if a.Node? && b.Node? { EqualFromPrintsAlike(a, b, 0, mem); }
    else if Wrapped(a) && Wrapped(b) {
      if !SameReference(a, b) { EqualPrintsAlike(Unwrap(a), Unwrap(b), mem); }
    } else if Wrapped(a) && b.Num? { EqualPrintsAlike(Unwrap(a), b, mem); }
    else if a.Num? && Wrapped(b) { EqualPrintsAlike(a, Unwrap(b), mem); }
  }

  lemma {:induction false} EqualFromPrintsAlike(a: Expr, b: Expr, i: nat, mem: Memory)
    requires a.Node? && b.Node? && i <= |a.children|
    requires InMemory(a, mem) && InMemory(b, mem) && StructuralEqual(a, b)
    ensures DumpFrom(a, i) == DumpFrom(b, i)
    decreases a, b, 0, |a.children| - i
  {
    if i < |a.children| {
      EqualPrintsAlike(a.children[i], b.children[i], mem);
      EqualFromPrintsAlike(a, b, i + 1, mem);
    }
  }

  lemma {:induction false} BlurredNumber(e: Expr)
    requires NumberOf(e).Some?
    ensures Blur(e) == Num(0, NumberOf(e).value)
  {
    match e
    case Num(_, _) =>
    case Held(x) => BlurredNumber(x);
    case Ref(_, x) => BlurredNumber(x);
    case Carrier(_, x) => BlurredNumber(x);
  }

  /** Of trees with integer leaves nothing but the tags matters. */
  lemma {:induction false} BlursEqual(a: Expr, b: Expr)
    requires IntegerLeaves(a) && IntegerLeaves(b)
    ensures Blur(a) == Blur(b) <==> StructuralEqual(Blur(a), Blur(b))
    decreases a, b
  {
    if a.Carrier? { BlursEqual(a.active, b); }
    else if b.Carrier? { BlursEqual(a, b.active); }
    else if a.Node? && b.Node? {
      var x, y := Blur(a), Blur(b);
      forall i | 0 <= i < |a.children| && i < |b.children|
        ensures x.children[i] == y.children[i] <==> StructuralEqual(x.children[i], y.children[i])
      {
        BlursEqual(a.children[i], b.children[i]);
      }
      assert x == y <==> x.tag == y.tag && x.children == y.children;
    } else {
      if !a.Node? { BlurredNumber(a); }
      if !b.Node? { BlurredNumber(b); }
    }
  }

  /** When trees with integer leaves print alike, whatever their tags: exactly when they
      are equal but for the tags without a name. */
  lemma PrintsAlikeIffBlursEqual(a: Expr, b: Expr)
    requires IntegerLeaves(a) && IntegerLeaves(b)
    ensures Dump(a) == Dump(b) <==> StructuralEqual(Blur(a), Blur(b))
  {
    PrintsAlikeIffBlursSame(a, b);
    BlursEqual(a, b);
  }

  lemma {:induction false} NamedBlursEqual(a: Expr, b: Expr, mem: Memory)
    requires Printable(a) && Printable(b) && InMemory(a, mem) && InMemory(b, mem)
    requires Blur(a) == Blur(b)
    ensures StructuralEqual(a, b)
    decreases a, b
  {
    if a.Carrier? && b.Carrier? { NamedBlursEqual(a.active, b.active, mem); }
    else if a.Carrier? { NamedBlursEqual(a.active, b, mem); }
    else if b.Carrier? { NamedBlursEqual(a, b.active, mem); }
    else if a.Node? && b.Node? {
      assert |Blur(a).children| == |Blur(b).children|;
      forall i | 0 <= i < |a.children| ensures StructuralEqual(a.children[i], b.children[i]) {
        assert Blur(a).children[i] == Blur(b).children[i];
        NamedBlursEqual(a.children[i], b.children[i], mem);
      }
    } else {
      if !a.Node? { BlurredNumber(a); }
      if !b.Node? { BlurredNumber(b); }
      NumbersEqual(a, b, mem);
    }
  }

  /** Unique readability, at any arity and depth, if all tags have names. */
  lemma PrintsAlikeIffEqual(a: Expr, b: Expr, mem: Memory)
    requires Printable(a) && Printable(b) && InMemory(a, mem) && InMemory(b, mem)
    ensures Dump(a) == Dump(b) <==> StructuralEqual(a, b)
  {
    if StructuralEqual(a, b) { EqualPrintsAlike(a, b, mem); }
    PrintsAlikeIffBlursSame(a, b);
    if Blur(a) == Blur(b) { NamedBlursEqual(a, b, mem); }
  }

  /** Names are needed: any two unnamed tags print alike over the same children. */
  lemma UnnamedTagsPrintAlike(s: Tag, t: Tag, cs: seq<Expr>)
    requires !Named(s) && !Named(t) && s != t
    ensures Dump(Node(s, cs)) == Dump(Node(t, cs)) && !StructuralEqual(Node(s, cs), Node(t, cs))
  {
    SameChildrenPrintAlike(Node(s, cs), Node(t, cs), 0);
  }

  lemma {:induction false} SameChildrenPrintAlike(a: Expr, b: Expr, i: nat)
    requires a.Node? && b.Node? && a.children == b.children && i <= |a.children|
    ensures DumpFrom(a, i) == DumpFrom(b, i)
    decreases |a.children| - i
  {
    if i < |a.children| { SameChildrenPrintAlike(a, b, i + 1); }
  }
}
