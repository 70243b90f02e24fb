/** Machine words as natural numbers, with the bitwise operators defined digit by
    digit. No width is built in; complements take theirs as an argument. */
module Bits {

  /** How many values 64 bits have, and the largest of them. */
  const WORD: nat := 0x1_0000_0000_0000_0000
  const SIZE_MAX: nat := 0xFFFF_FFFF_FFFF_FFFF

  type Word = n: nat | n < WORD

  function Pow2(k: nat): (p: nat)
    ensures p >= 1
  {
    if k == 0 then 1 else 2 * Pow2(k - 1)
  }

  predicate Bit(w: nat, i: nat)
  {
    if i == 0 then w % 2 == 1 else Bit(w / 2, i - 1)
  }

  function And(a: nat, b: nat): nat
  {
    if a == 0 then 0 else 2 * And(a / 2, b / 2) + if a % 2 == 1 && b % 2 == 1 then 1 else 0
  }

  function Or(a: nat, b: nat): nat
  {
    if a == 0 then b else 2 * Or(a / 2, b / 2) + if a % 2 == 1 || b % 2 == 1 then 1 else 0
  }

  function Xor(a: nat, b: nat): nat
  {
    if a == 0 then b else 2 * Xor(a / 2, b / 2) + if a % 2 == b % 2 then 0 else 1
  }

  /** `~w` in a word of `n` bits. */
  function Complement(n: nat, w: nat): nat
    requires w < Pow2(n)
  {
    Pow2(n) - 1 - w
  }

  lemma {:induction false} AndBit(a: nat, b: nat, i: nat)
    ensures Bit(And(a, b), i) <==> Bit(a, i) && Bit(b, i)
  {
    if a == 0 { ZeroBit(i); } else if i > 0 { AndBit(a / 2, b / 2, i - 1); }
  }

  lemma {:induction false} OrBit(a: nat, b: nat, i: nat)
    ensures Bit(Or(a, b), i) <==> Bit(a, i) || Bit(b, i)
  {
    if a == 0 { ZeroBit(i); } else if i > 0 { OrBit(a / 2, b / 2, i - 1); }
  }

  lemma {:induction false} XorBit(a: nat, b: nat, i: nat)
    ensures Bit(Xor(a, b), i) <==> Bit(a, i) != Bit(b, i)
  {
    if a == 0 { ZeroBit(i); } else if i > 0 { XorBit(a / 2, b / 2, i - 1); }
  }

  lemma {:induction false} XorSmall(n: nat, a: nat, b: nat)
    requires a < Pow2(n) && b < Pow2(n)
    ensures Xor(a, b) < Pow2(n)
  {
    if n > 0 && a > 0 { XorSmall(n - 1, a / 2, b / 2); }
  }

  /** Applied twice it gives its operand back. */
  lemma {:induction false} XorTwice(a: nat, b: nat)
    ensures Xor(a, Xor(a, b)) == b
  {
    if a > 0 {
      XorTwice(a / 2, b / 2);
      assert Xor(a, b) / 2 == Xor(a / 2, b / 2);
    }
  }

  lemma XorIsWord(a: Word, b: Word)
    ensures Xor(a, b) < WORD
  {
    hide Xor;
    WordIsPower();
    XorSmall(64, a, b);
  }

  lemma WordIsPower()
    ensures Pow2(64) == WORD == SIZE_MAX + 1
  {
    assert Pow2(8) == 256;
    assert Pow2(16) == 65536;
    assert Pow2(24) == 16777216;
    assert Pow2(32) == 0x1_0000_0000;
    assert Pow2(40) == 0x100_0000_0000;
    assert Pow2(48) == 0x1_0000_0000_0000;
    assert Pow2(56) == 0x100_0000_0000_0000;
  }

  lemma {:induction false} ZeroBit(i: nat)
    ensures !Bit(0, i)
  {
    if i > 0 { ZeroBit(i - 1); }
  }

  lemma {:induction false} ComplementBit(n: nat, w: nat, i: nat)
    requires w < Pow2(n)
    ensures Bit(Complement(n, w), i) <==> i < n && !Bit(w, i)
  {
    if n == 0 {
      ZeroBit(i);
    } else {
      assert Complement(n, w) / 2 == Complement(n - 1, w / 2);
      if i > 0 { ComplementBit(n - 1, w / 2, i - 1); }
    }
  }

  lemma {:induction false} OneBit(k: nat, i: nat)
    ensures Bit(Pow2(k), i) <==> i == k
  {
    if k > 0 && i > 0 { OneBit(k - 1, i - 1); }
    else if k == 0 && i > 0 { ZeroBit(i - 1); }
  }

  lemma {:induction false} HighBitsClear(n: nat, w: nat, i: nat)
    requires w < Pow2(n) && n <= i
    ensures !Bit(w, i)
  {
    if n == 0 { ZeroBit(i); } else { HighBitsClear(n - 1, w / 2, i - 1); }
  }

  lemma {:induction false} SmallFromBits(n: nat, w: nat)
    requires forall i | n <= i :: !Bit(w, i)
    ensures w < Pow2(n)
  {
    if n == 0 {
      if w > 0 { var i := SomeBit(w); }
    } else {
      forall i | n - 1 <= i ensures !Bit(w / 2, i) { assert Bit(w, i + 1) == Bit(w / 2, i); }
      SmallFromBits(n - 1, w / 2);
    }
  }

  lemma {:induction false} SomeBit(w: nat) returns (i: nat)
    requires w > 0
    ensures Bit(w, i)
  {
    if w % 2 == 1 { i := 0; } else { i := SomeBit(w / 2); i := i + 1; }
  }

  // ----- fields of a word -----

  lemma {:induction false} AndSelf(w: nat)
    ensures And(w, w) == w
  {
    if w > 0 { AndSelf(w / 2); }
  }

  lemma {:induction false} AndZero(w: nat)
    ensures And(w, 0) == 0
  {
    if w > 0 { AndZero(w / 2); }
  }

  lemma AndStep(a: nat, b: nat)
    ensures And(a, b) == 2 * And(a / 2, b / 2) + if a % 2 == 1 && b % 2 == 1 then 1 else 0
  {
  }

  lemma LowMask(k: nat)
    requires k > 0
    ensures Pow2(k) == 2 * Pow2(k - 1) && (Pow2(k) - 1) / 2 == Pow2(k - 1) - 1 && (Pow2(k) - 1) % 2 == 1
  {
  }

  /** Masking with the low `k` bits takes the remainder. */
  lemma {:induction false} AndMask(w: nat, k: nat)
    ensures And(w, Pow2(k) - 1) == w % Pow2(k)
  {
    if k == 0 { AndZero(w); }
    else {
      hide And, Pow2;
      AndMask(w / 2, k - 1);
      HalfModulo(w, Pow2(k - 1));
      LowMask(k);
      AndStep(w, Pow2(k) - 1);
    }
  }

  lemma HalfModulo(w: nat, m: nat)
    requires m > 0
    ensures w % (2 * m) == 2 * ((w / 2) % m) + w % 2
  {
    var q, r := (w / 2) / m, (w / 2) % m;
    assert w == 2 * (m * q + r) + w % 2;
    ModuloUnique(w, 2 * m, q, 2 * r + w % 2);
  }

  lemma ModuloUnique(w: int, m: nat, q: int, r: nat)
    requires 0 < m && r < m && w == m * q + r
    ensures w % m == r && w / m == q
  {
    var q', r' := w / m, w % m;
    assert w == m * q' + r';
    if q > q' { MulMonotone(m, q' + 1, q); }
    if q < q' { MulMonotone(m, q + 1, q'); }
  }

  lemma MulMonotone(m: nat, a: int, b: int)
    requires a <= b
    ensures m * a <= m * b
  {
    assert m * (b - a) >= 0;
  }

  lemma LargestMultiple(x: nat, m: nat)
    requires m > 0
    ensures x - m < x / m * m == x - x % m <= x && x / m * m % m == 0
  {
    var q := x / m;
    assert x == m * q + x % m;
    ModuloUnique(m * q, m, q, 0);
  }

  /** Joining a shifted field with a low one adds them. */
  lemma {:induction false} OrDisjoint(high: nat, k: nat, low: nat)
    requires low < Pow2(k)
    ensures Or(high * Pow2(k), low) == high * Pow2(k) + low
  {
    if high > 0 && k > 0 {
      assert high * Pow2(k) == 2 * (high * Pow2(k - 1));
      OrDisjoint(high, k - 1, low / 2);
    }
    if high > 0 && k == 0 { OrZero(high); }
  }

  lemma {:induction false} OrZero(w: nat)
    ensures Or(w, 0) == w
  {
    if w > 0 { OrZero(w / 2); }
  }

  lemma {:induction false} OrCommutes(a: nat, b: nat)
    ensures Or(a, b) == Or(b, a)
  {
    if a == 0 { OrZero(b); } else if b == 0 { OrZero(a); } else { OrCommutes(a / 2, b / 2); }
  }

  lemma {:induction false} BitIsQuotient(w: nat, k: nat)
    ensures Bit(w, k) <==> (w / Pow2(k)) % 2 == 1
  {
    if k > 0 {
      BitIsQuotient(w / 2, k - 1);
      QuotientOfHalf(w, Pow2(k - 1));
    }
  }

  lemma QuotientOfHalf(w: nat, m: nat)
    requires m > 0
    ensures w / (2 * m) == (w / 2) / m
  {
    var q, r := (w / 2) / m, (w / 2) % m;
    assert w == 2 * (m * q + r) + w % 2;
    ModuloUnique(w, 2 * m, q, 2 * r + w % 2);
  }

  /** Masking with one bit tests it. */
  lemma {:induction false} AndPower(w: nat, k: nat)
    ensures And(w, Pow2(k)) == if Bit(w, k) then Pow2(k) else 0
  {
    if w == 0 { ZeroBit(k); }
    else if k == 0 { AndZero(w / 2); }
    else { AndPower(w / 2, k - 1); }
  }

  /** Setting a clear bit adds it, setting a set one changes nothing. */
  lemma {:induction false} OrPower(w: nat, k: nat)
    ensures Or(w, Pow2(k)) == if Bit(w, k) then w else w + Pow2(k)
  {
    if w == 0 { ZeroBit(k); }
    else if k == 0 { OrZero(w / 2); }
    else { OrPower(w / 2, k - 1); }
  }

  /** Masking with all but the low `k` of `n` bits drops the remainder. */
  lemma {:induction false} AndHighMask(w: nat, n: nat, k: nat)
    requires w < Pow2(n) && k <= n
    ensures Pow2(k) <= Pow2(n) && And(w, Pow2(n) - Pow2(k)) == w - w % Pow2(k)
  {
    if k == 0 {
      AndMask(w, n);
      ModuloUnique(w, Pow2(n), 0, w);
    } else {
      hide And, Pow2;
      LowMask(n);
      LowMask(k);
      AndHighMask(w / 2, n - 1, k - 1);
      AndStep(w, Pow2(n) - Pow2(k));
      assert (Pow2(n) - Pow2(k)) / 2 == Pow2(n - 1) - Pow2(k - 1) && (Pow2(n) - Pow2(k)) % 2 == 0;
      HalfModulo(w, Pow2(k - 1));
    }
  }

  // ----- powers of two -----

  predicate IsPowerOfTwo(v: int)
  {
    v > 0 && And(v, v - 1) == 0
  }

  lemma {:induction false} PowerOfTwoTest(v: int)
    ensures IsPowerOfTwo(v) <==> exists k: nat :: v == Pow2(k)
    ensures IsPowerOfTwo(v) ==> v == Pow2(ShiftCount(v))
  {
    if v > 1 {
      hide And, Pow2;
      PowerOfTwoTest(v / 2);
      AndStep(v, v - 1);
      PowerHalves(v);
      if v % 2 == 1 { AndSelf(v / 2); } else { LowMask(ShiftCount(v)); }
    } else if v == 1 {
      assert v == Pow2(0);
    }
  }

  /** Beyond one the powers of two are the doubles of powers of two. */
  lemma PowerHalves(v: nat)
    requires v > 1
    ensures (exists k: nat :: v == Pow2(k)) <==> v % 2 == 0 && exists k: nat :: v / 2 == Pow2(k)
  {
    if k: nat :| v == Pow2(k) { assert v / 2 == Pow2(k - 1); }
    if k: nat :| v % 2 == 0 && v / 2 == Pow2(k) { assert v == Pow2(k + 1); }
  }

  /** The recursion that counts halvings down to one. */
  function ShiftCount(n: nat): nat
  {
    if n <= 1 then 0 else 1 + ShiftCount(n / 2)
  }

  /** It is the exponent of a power of two, and rounds other numbers down. */
  lemma {:induction false} ShiftCountBounds(n: nat)
    requires n >= 1
    ensures Pow2(ShiftCount(n)) <= n < 2 * Pow2(ShiftCount(n))
  {
    if n > 1 { ShiftCountBounds(n / 2); }
  }

  lemma {:induction false} ShiftCountOfPower(k: nat)
    ensures ShiftCount(Pow2(k)) == k
  {
    if k > 0 { ShiftCountOfPower(k - 1); }
  }
}
