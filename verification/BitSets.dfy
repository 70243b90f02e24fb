/** Two-level bit sets: words of 64 bits and a summary word that says which of
    them are not zero. */
module BitSets {
  import opened Bits
  import opened Sets

  // ----- one word as a set -----

  function Members(w: nat, n: nat): (s: set<nat>)
    ensures forall i: nat :: i in s <==> i < n && Bit(w, i)
  {
    if n == 0 then {} else Members(w, n - 1) + if Bit(w, n - 1) then {n - 1} else {}
  }

  /** The index of the lowest set bit: how many zeros lie below it. */
  function LowestBit(w: nat): (i: nat)
    requires w != 0
    ensures Bit(w, i) && forall j: nat | j < i :: !Bit(w, j)
  {
    if w % 2 == 1 then 0 else
      var r := LowestBit(w / 2);
      assert forall j: nat | j < r + 1 :: !Bit(w, j) by {
        forall j: nat | j < r + 1 ensures !Bit(w, j) { if j > 0 { assert !Bit(w / 2, j - 1); } }
      }
      r + 1
  }

  function PopCount(w: nat): nat
  {
    if w == 0 then 0 else PopCount(w / 2) + w % 2
  }

  /** Clears the lowest set bit, as `w & (w - 1)` does. */
  lemma {:induction false} ClearLowest(w: nat, i: nat)
    requires w != 0
    ensures Bit(And(w, w - 1), i) <==> Bit(w, i) && i != LowestBit(w)
  {
    if w % 2 == 1 {
      AndBit(w, w - 1, i);
      assert (w - 1) / 2 == w / 2;
      if i > 0 { assert Bit(w - 1, i) == Bit(w, i); }
    } else if i > 0 {
      assert (w - 1) / 2 == w / 2 - 1;
      assert And(w, w - 1) == 2 * And(w / 2, w / 2 - 1);
      ClearLowest(w / 2, i - 1);
    }
  }

  lemma {:induction false} AndIsSmaller(a: nat, b: nat)
    ensures And(a, b) <= a && And(a, b) <= b
  {
    if a > 0 { AndIsSmaller(a / 2, b / 2); }
  }

  function CountBits(w: nat, n: nat): nat
  {
    if n == 0 then 0 else CountBits(w, n - 1) + if Bit(w, n - 1) then 1 else 0
  }

  lemma {:induction false} CountBitsHalf(w: nat, n: nat)
    requires n > 0
    ensures CountBits(w, n) == CountBits(w / 2, n - 1) + w % 2
  {
    if n > 1 { CountBitsHalf(w, n - 1); }
  }

  lemma {:induction false} PopCountIsCount(w: nat, n: nat)
    requires w < Pow2(n)
    ensures PopCount(w) == CountBits(w, n)
  {
    if n > 0 {
      CountBitsHalf(w, n);
      PopCountIsCount(w / 2, n - 1);
    }
  }

  lemma {:induction false} PopCountIsSize(w: nat, n: nat)
    requires w < Pow2(n)
    ensures PopCount(w) == |Members(w, n)|
  {
    PopCountIsCount(w, n);
    CountBitsIsSize(w, n);
  }

  lemma {:induction false} CountBitsIsSize(w: nat, n: nat)
    ensures CountBits(w, n) == |Members(w, n)|
  {
    if n > 0 { CountBitsIsSize(w, n - 1); }
  }

  lemma {:induction false} PowersGrow(i: nat, n: nat)
    requires i < n
    ensures Pow2(i) < Pow2(n)
  {
    if i < n - 1 { PowersGrow(i, n - 1); }
  }

  // ----- the operations of one word -----

  function SetBit(w: nat, i: nat): nat { Or(w, Pow2(i)) }

  function ClearBit(w: nat, i: nat): nat
    requires i < 64 && Pow2(i) < Pow2(64)
  {
    And(w, Complement(64, Pow2(i)))
  }

  predicate GetBit(w: nat, i: nat) { And(w, Pow2(i)) != 0 }

  lemma SetBitMeaning(w: nat, i: nat)
    requires w < WORD && i < 64
    ensures SetBit(w, i) < WORD && SetBit(w, i) != 0
    ensures forall j: nat :: Bit(SetBit(w, i), j) <==> Bit(w, j) || j == i
  {
    forall j: nat ensures Bit(SetBit(w, i), j) <==> Bit(w, j) || j == i { OrBit(w, Pow2(i), j); OneBit(i, j); }
    WordIsPower();
    forall j | 64 <= j ensures !Bit(SetBit(w, i), j) { HighBitsClear(64, w, j); }
    SmallFromBits(64, SetBit(w, i));
    ZeroBit(i);
  }

  lemma ClearBitMeaning(w: nat, i: nat)
    requires w < WORD && i < 64
    ensures Pow2(i) < Pow2(64) && ClearBit(w, i) < WORD
    ensures forall j: nat :: Bit(ClearBit(w, i), j) <==> Bit(w, j) && j != i
  {
    WordIsPower();
    PowersGrow(i, 64);
    forall j: nat ensures Bit(ClearBit(w, i), j) <==> Bit(w, j) && j != i {
      AndBit(w, Complement(64, Pow2(i)), j);
      ComplementBit(64, Pow2(i), j);
      OneBit(i, j);
      if j >= 64 { HighBitsClear(64, w, j); }
    }
    AndIsSmaller(w, Complement(64, Pow2(i)));
  }

  lemma GetBitMeaning(w: nat, i: nat)
    ensures GetBit(w, i) <==> Bit(w, i)
  {
    AndPower(w, i);
  }

  /** Visits the set bits of a word from the lowest up. */
  method ForeachBit(w: nat) returns (visited: seq<nat>)
    requires w < WORD
    ensures Ascending(visited) && forall i: nat :: i in visited <==> i < 64 && Bit(w, i)
  {
    visited := [];
    var remaining: nat := w;
    WordIsPower();
    while remaining != 0
      invariant remaining <= w && Ascending(visited)
      invariant forall i: nat :: Bit(w, i) <==> i in visited || Bit(remaining, i)
      invariant forall i, j: nat | i in visited && Bit(remaining, j) :: i < j
      decreases remaining
    {
      var i := LowestBit(remaining);
      var rest := And(remaining, remaining - 1);
      forall j: nat ensures Bit(rest, j) <==> Bit(remaining, j) && j != i { ClearLowest(remaining, j); }
      AndIsSmaller(remaining, remaining - 1);
      assert forall k | 0 <= k < |visited| :: visited[k] in visited;
      remaining := rest;
      visited := visited + [i];
    }
    forall i: nat ensures i in visited <==> i < 64 && Bit(w, i) {
      ZeroBit(i);
      if i >= 64 { HighBitsClear(64, w, i); }
    }
  }

  // ----- many words -----

  predicate Has(words: seq<nat>, i: nat)
  {
    i / 64 < |words| && Bit(words[i / 64], i % 64)
  }

  /** The members below `n`. */
  function Below(words: seq<nat>, n: nat): (s: set<nat>)
    ensures forall i: nat :: i in s <==> i < n && Has(words, i)
  {
    if n == 0 then {} else Below(words, n - 1) + if Has(words, n - 1) then {n - 1} else {}
  }

  /** The counts of the first `n` words. */
  function SumOfCounts(words: seq<nat>, n: nat): nat
    requires n <= |words|
  {
    if n == 0 then 0 else SumOfCounts(words, n - 1) + PopCount(words[n - 1])
  }

  lemma BelowStep(words: seq<nat>, n: nat)
    ensures |Below(words, n + 1)| == |Below(words, n)| + if Has(words, n) then 1 else 0
  {
    hide Has;
  }

  lemma {:induction false} SizeWithinWord(words: seq<nat>, j: nat, k: nat)
    requires j < |words| && k <= 64
    ensures |Below(words, 64 * j + k)| == |Below(words, 64 * j)| + CountBits(words[j], k)
  {
    hide Below, Has, Bit;
    if k > 0 {
      SizeWithinWord(words, j, k - 1);
      HasAt(words, j, k - 1);
      BelowStep(words, 64 * j + k - 1);
    }
  }

  lemma WordAdds(words: seq<nat>, j: nat)
    requires j < |words| && words[j] < WORD
    ensures |Below(words, 64 * (j + 1))| == |Below(words, 64 * j)| + PopCount(words[j])
  {
    hide Below, CountBits, PopCount, Pow2;
    SizeWithinWord(words, j, 64);
    WordIsPower();
    PopCountIsCount(words[j], 64);
  }

  lemma {:induction false} SizeIsSum(words: seq<nat>, n: nat)
    requires n <= |words| && forall j | 0 <= j < n :: words[j] < WORD
    ensures |Below(words, 64 * n)| == SumOfCounts(words, n)
  {
    hide Below, PopCount;
    if n == 0 {
      assert Below(words, 0) == {};
    } else {
      SizeIsSum(words, n - 1);
      WordAdds(words, n - 1);
      assert 64 * (n - 1 + 1) == 64 * n;
    }
  }

  lemma {:induction false} ZeroWordsAddNothing(words: seq<nat>, m: nat, n: nat)
    requires m <= n <= |words| && forall j | m <= j < n :: words[j] == 0
    ensures SumOfCounts(words, m) == SumOfCounts(words, n)
  {
    if m < n { ZeroWordsAddNothing(words, m, n - 1); }
  }

  /** How many words `maxSize` bits take. */
  function WordsFor(maxSize: nat): nat { (maxSize + 64 - 1) / 64 }

  ghost predicate Consistent(words: seq<nat>, nonzero: nat, maxSize: nat)
  {
    && 0 < maxSize <= 4096 && |words| == WordsFor(maxSize) && nonzero < WORD
    && (forall j | 0 <= j < |words| :: words[j] < WORD)
    && (forall j: nat :: Bit(nonzero, j) <==> j < |words| && words[j] != 0)
    && (forall i: nat | Has(words, i) :: i < maxSize)
  }

  lemma HasAt(words: seq<nat>, j: nat, k: nat)
    requires k < 64
    ensures Has(words, j * 64 + k) <==> j < |words| && Bit(words[j], k)
  {
    ModuloUnique(j * 64 + k, 64, j, k);
  }

  /** Replacing one word: the summary must follow, and the members change there only. */
  lemma WordReplaced(words: seq<nat>, nonzero: nat, nonzero': nat, maxSize: nat, j: nat, w: nat)
    requires Consistent(words, nonzero, maxSize) && j < |words| && w < WORD && nonzero' < WORD
    requires forall k: nat | Bit(w, k) :: 64 * j + k < maxSize
    requires forall k: nat :: Bit(nonzero', k) <==> if k == j then w != 0 else Bit(nonzero, k)
    ensures Consistent(words[j := w], nonzero', maxSize)
    ensures forall i: nat :: Has(words[j := w], i) <==> if i / 64 == j then Bit(w, i % 64) else Has(words, i)
  {
    var after := words[j := w];
    forall i: nat | Has(after, i) ensures i < maxSize {
      if i / 64 != j { assert Has(words, i); }
    }
  }

  lemma SetKeeps(words: seq<nat>, nonzero: nat, maxSize: nat, i: nat)
    requires Consistent(words, nonzero, maxSize) && i < maxSize
    ensures Consistent(words[i / 64 := SetBit(words[i / 64], i % 64)], SetBit(nonzero, i / 64), maxSize)
    ensures Below(words[i / 64 := SetBit(words[i / 64], i % 64)], maxSize) == Below(words, maxSize) + {i}
  {
    var j, w := i / 64, SetBit(words[i / 64], i % 64);
    SetBitMeaning(words[j], i % 64);
    SetBitMeaning(nonzero, j);
    forall k: nat | Bit(w, k) ensures 64 * j + k < maxSize { BitIsMember(words, nonzero, maxSize, j, k); }
    WordReplaced(words, nonzero, SetBit(nonzero, j), maxSize, j, w);
  }

  lemma BitIsMember(words: seq<nat>, nonzero: nat, maxSize: nat, j: nat, k: nat)
    requires Consistent(words, nonzero, maxSize) && j < |words|
    ensures Bit(words[j], k) ==> k < 64 && 64 * j + k < maxSize
  {
    if Bit(words[j], k) {
      WordIsPower();
      if k >= 64 { HighBitsClear(64, words[j], k); }
      HasAt(words, j, k);
    }
  }

  lemma OrKeeps(words: seq<nat>, nonzero: nat, maxSize: nat, b: nat)
    requires Consistent(words, nonzero, maxSize) && b < WORD && forall k: nat | Bit(b, k) :: k < maxSize
    ensures Consistent(words[0 := Or(words[0], b)], if b != 0 then SetBit(nonzero, 0) else nonzero, maxSize)
    ensures Below(words[0 := Or(words[0], b)], maxSize) == Below(words, maxSize) + Members(b, 64)
  {
    var w := Or(words[0], b);
    WordIsPower();
    forall k: nat ensures Bit(w, k) <==> Bit(words[0], k) || Bit(b, k) { OrBit(words[0], b, k); }
    forall k: nat | Bit(w, k) ensures k < 64 && k < maxSize {
      BitIsMember(words, nonzero, maxSize, 0, k);
      if k >= 64 { HighBitsClear(64, b, k); }
    }
    SmallFromBits(64, w);
    SetBitMeaning(nonzero, 0);
    OrIsZero(words[0], b);
    WordReplaced(words, nonzero, if b != 0 then SetBit(nonzero, 0) else nonzero, maxSize, 0, w);
    assert forall i: nat | i < maxSize && i < 64 :: i / 64 == 0 && i % 64 == i;
  }

  lemma {:induction false} OrIsZero(a: nat, b: nat)
    ensures Or(a, b) == 0 <==> a == 0 && b == 0
  {
    if a > 0 { OrIsZero(a / 2, b / 2); }
  }

  lemma ClearKeeps(words: seq<nat>, nonzero: nat, maxSize: nat, i: nat)
    requires Consistent(words, nonzero, maxSize) && i < maxSize
    ensures Pow2(i % 64) < Pow2(64) && Pow2(i / 64) < Pow2(64)
    ensures var w := ClearBit(words[i / 64], i % 64);
      Consistent(words[i / 64 := w], if w == 0 then ClearBit(nonzero, i / 64) else nonzero, maxSize) &&
      Below(words[i / 64 := w], maxSize) == Below(words, maxSize) - {i}
  {
    hide Pow2, ClearBit;
    ClearBitMeaning(words[i / 64], i % 64);
    ClearBitMeaning(nonzero, i / 64);
    var j, w := i / 64, ClearBit(words[i / 64], i % 64);
    forall k: nat | Bit(w, k) ensures 64 * j + k < maxSize { BitIsMember(words, nonzero, maxSize, j, k); }
    if w != 0 { var k := SomeBit(w); ZeroBit(k); }
    WordReplaced(words, nonzero, if w == 0 then ClearBit(nonzero, j) else nonzero, maxSize, j, w);
  }

  class BitSet4096 {
    const maxSize: nat
    var nonzero: nat
    var bits: array<nat>

    ghost predicate Valid()
      reads this, bits
    {
      Consistent(bits[..], nonzero, maxSize)
    }

    ghost function Contents(): set<nat>
      reads this, bits
    {
      Below(bits[..], maxSize)
    }

    constructor (maxSize: nat)
      requires 0 < maxSize <= 4096
      ensures Valid() && fresh(bits) && this.maxSize == maxSize && Contents() == {}
    {
      this.maxSize := maxSize;
      nonzero := 0;
      bits := new nat[WordsFor(maxSize)](_ => 0);
      new;
      forall j: nat ensures !Bit(0, j) { ZeroBit(j); }
    }

    method Set(i: nat)
      requires Valid() && i < maxSize
      modifies this`nonzero, bits
      ensures Valid() && Contents() == old(Contents()) + {i}
    {
      ghost var words := bits[..];
      bits[i / 64] := SetBit(bits[i / 64], i % 64);
      nonzero := SetBit(nonzero, i / 64);
      assert bits[..] == words[i / 64 := SetBit(words[i / 64], i % 64)];
      SetKeeps(words, old(nonzero), maxSize, i);
    }

    /** Sets bits 0 to 63 where the argument has ones; none may lie beyond the size. */
    method SetNonzeroBitsFrom64(newBits: nat)
      requires Valid() && newBits < WORD && forall k: nat | Bit(newBits, k) :: k < maxSize
      modifies this`nonzero, bits
      ensures Valid() && Contents() == old(Contents()) + Members(newBits, 64)
    {
      ghost var words := bits[..];
      bits[0] := Or(bits[0], newBits);
      if newBits != 0 { nonzero := SetBit(nonzero, 0); }
      assert bits[..] == words[0 := Or(words[0], newBits)];
      OrKeeps(words, old(nonzero), maxSize, newBits);
    }

    method Clear(i: nat)
      requires Valid() && i < maxSize
      modifies this`nonzero, bits
      ensures Valid() && Contents() == old(Contents()) - {i}
    {
      ghost var words := bits[..];
      ClearBitMeaning(bits[i / 64], i % 64);
      ClearBitMeaning(nonzero, i / 64);
      bits[i / 64] := ClearBit(bits[i / 64], i % 64);
      if bits[i / 64] == 0 { nonzero := ClearBit(nonzero, i / 64); }
      assert bits[..] == words[i / 64 := ClearBit(words[i / 64], i % 64)];
      ClearKeeps(words, old(nonzero), maxSize, i);
    }

    method Get(i: nat) returns (r: bool)
      requires Valid() && i < maxSize
      ensures r <==> i in Contents()
    {
      GetBitMeaning(bits[i / 64], i % 64);
      r := GetBit(bits[i / 64], i % 64);
    }

    method Any() returns (r: bool)
      requires Valid()
      ensures r <==> Contents() != {}
    {
      r := nonzero != 0;
      AnyMeaning(bits[..], nonzero, maxSize);
    }

    /** The lowest member. */
    method First() returns (r: nat)
      requires Valid() && Contents() != {}
      ensures r in Contents() && forall i | i in Contents() :: r <= i
    {
      AnyMeaning(bits[..], nonzero, maxSize);
      var idx := LowestBit(nonzero);
      r := idx * 64 + LowestBit(bits[idx]);
      FirstMeaning(bits[..], nonzero, maxSize);
    }

    /** The lowest number below the size that is not a member. */
    method First0() returns (r: nat)
      requires Valid() && exists i: nat :: i < maxSize && i !in Contents()
      ensures r < maxSize && r !in Contents() && forall i: nat | i < r :: i in Contents()
    {
      hide Pow2, LowestBit, Bit;
      ghost var x: nat :| x < maxSize && x !in Contents();
      var idx := 0;
      WordIsPower();
      while bits[idx] == WORD - 1
        invariant idx <= x / 64
        invariant forall j | 0 <= j < idx :: bits[j] == WORD - 1
        decreases x / 64 - idx
      {
        if idx == x / 64 { AllOnes(x % 64); }
        idx := idx + 1;
      }
      r := idx * 64 + LowestBit(Complement(64, bits[idx]));
      First0Meaning(bits[..], nonzero, maxSize, idx, x);
    }

    method Get64() returns (r: nat)
      requires Valid()
      ensures r < WORD && forall i: nat :: Bit(r, i) <==> i < 64 && i in Contents()
    {
      r := bits[0];
      forall i: nat ensures Bit(r, i) <==> i < 64 && i in Contents() {
        BitIsMember(bits[..], nonzero, maxSize, 0, i);
        if i < 64 { HasAt(bits[..], 0, i); }
      }
    }

    /** Visits every member once, in ascending order. */
    method Foreach() returns (visited: seq<nat>)
      requires Valid()
      ensures Ascending(visited) && forall i :: i in visited <==> i in Contents()
    {
      visited := [];
      var idxs := ForeachBit(nonzero);
      for t := 0 to |idxs|
        invariant Ascending(visited)
        invariant forall i: nat :: i in visited <==> Has(bits[..], i) && i / 64 in idxs[..t]
      {
        CountOneWord(bits[..], idxs, t);
        var mods := ForeachBit(bits[idxs[t]]);
        VisitOneWord(bits[..], visited, idxs, t, mods);
        visited := visited + Shifted(mods, idxs[t] * 64);
      }
      forall i: nat | Has(bits[..], i) ensures i / 64 in idxs { WordOfMember(bits[..], nonzero, maxSize, i); }
      assert idxs[..|idxs|] == idxs;
    }

    method Count() returns (total: nat)
      requires Valid()
      ensures total == |Contents()|
    {
      total := 0;
      var idxs := ForeachBit(nonzero);
      for t := 0 to |idxs|
        invariant After(idxs, t) <= bits.Length && total == SumOfCounts(bits[..], After(idxs, t))
      {
        CountOneWord(bits[..], idxs, t);
        total := total + PopCount(bits[idxs[t]]);
      }
      CountAllWords(bits[..], idxs, nonzero, maxSize);
    }

    method All() returns (r: bool)
      requires Valid()
      ensures r <==> forall i: nat | i < maxSize :: i in Contents()
    {
      assert forall i: nat | i < maxSize :: i in Contents() <==> Has(bits[..], i);
      FullMeaning(bits[..], nonzero, maxSize);
      if PopCount(nonzero) != bits.Length { return false; }
      var count := Count();
      r := count == maxSize;
      assert r <==> Full(bits[..], maxSize);
    }
  }

  function Shifted(s: seq<nat>, offset: nat): (r: seq<nat>)
    ensures |r| == |s| && forall i | 0 <= i < |s| :: r[i] == offset + s[i]
  {
    seq(|s|, i requires 0 <= i < |s| => offset + s[i])
  }

  lemma AnyMeaning(words: seq<nat>, nonzero: nat, maxSize: nat)
    requires Consistent(words, nonzero, maxSize)
    ensures nonzero != 0 <==> Below(words, maxSize) != {}
  {
    if nonzero != 0 {
      var j := SomeBit(nonzero);
      var k := SomeBit(words[j]);
      BitIsMember(words, nonzero, maxSize, j, k);
      HasAt(words, j, k);
      assert j * 64 + k in Below(words, maxSize);
    } else {
      forall i: nat ensures !Has(words, i) {
        if i / 64 < |words| {
          ZeroBit(i / 64);
          assert words[i / 64] == 0;
          ZeroBit(i % 64);
        }
      }
    }
  }

  lemma WordOfMember(words: seq<nat>, nonzero: nat, maxSize: nat, i: nat)
    requires Consistent(words, nonzero, maxSize) && Has(words, i)
    ensures Bit(nonzero, i / 64)
  {
    if words[i / 64] == 0 { ZeroBit(i % 64); }
  }

  lemma FirstMeaning(words: seq<nat>, nonzero: nat, maxSize: nat)
    requires Consistent(words, nonzero, maxSize) && nonzero != 0
    ensures var idx := LowestBit(nonzero);
      idx < |words| && words[idx] != 0 &&
      var r := idx * 64 + LowestBit(words[idx]);
      r in Below(words, maxSize) && forall i | i in Below(words, maxSize) :: r <= i
  {
    hide And, Or, Bit, Pow2, PopCount;
    var idx := LowestBit(nonzero);
    assert idx < |words| && words[idx] != 0;
    var k := LowestBit(words[idx]);
    BitIsMember(words, nonzero, maxSize, idx, k);
    HasAt(words, idx, k);
    forall i | i in Below(words, maxSize) ensures idx * 64 + k <= i {
      WordOfMember(words, nonzero, maxSize, i);
      assert idx <= i / 64;
      if i / 64 == idx { assert k <= i % 64; }
    }
  }

  lemma AllOnes(k: nat)
    requires k < 64
    ensures Bit(WORD - 1, k)
  {
    WordIsPower();
    ZeroBit(k);
    assert Complement(64, 0) == WORD - 1;
    ComplementBit(64, 0, k);
  }

  lemma FullBelow(words: seq<nat>, idx: nat, k: nat, i: nat)
    requires idx < |words| && k < 64 && i < idx * 64 + k && words[idx] < Pow2(64)
    requires forall j | 0 <= j < idx :: words[j] == WORD - 1
    requires forall j: nat | j < k :: !Bit(Complement(64, words[idx]), j)
    ensures Has(words, i)
  {
    hide Pow2;
    if i / 64 < idx {
      AllOnes(i % 64);
    } else {
      assert i / 64 == idx && i % 64 < k;
      ComplementBit(64, words[idx], i % 64);
    }
  }

  lemma First0Meaning(words: seq<nat>, nonzero: nat, maxSize: nat, idx: nat, x: nat)
    requires Consistent(words, nonzero, maxSize) && idx <= x / 64 && x < maxSize && x !in Below(words, maxSize)
    requires words[idx] != WORD - 1 && forall j | 0 <= j < idx :: words[j] == WORD - 1
    ensures words[idx] < Pow2(64) && Complement(64, words[idx]) != 0
    ensures var r := idx * 64 + LowestBit(Complement(64, words[idx]));
      r < maxSize && r !in Below(words, maxSize) && forall i: nat | i < r :: i in Below(words, maxSize)
  {
    WordIsPower();
    hide Pow2, And, Or, Has, Bit, PopCount;
    var c := Complement(64, words[idx]);
    assert c != 0;
    var k := LowestBit(c);
    ComplementBit(64, words[idx], k);
    HasAt(words, idx, k);
    var r := idx * 64 + k;
    forall i: nat | i < r ensures Has(words, i) { FullBelow(words, idx, k, i); }
    assert x < r ==> Has(words, x);
  }

  // ----- walking over the words -----

  /** `idxs` are the words that are not zero, in order. */
  ghost predicate NonzeroWords(words: seq<nat>, idxs: seq<nat>)
  {
    Ascending(idxs) && forall j: nat :: j in idxs <==> j < |words| && words[j] != 0
  }

  /** Where the search for the `t`th nonzero word starts, and where it ends. */
  function After(idxs: seq<nat>, t: nat): nat
    requires t <= |idxs|
  {
    if t == 0 then 0 else idxs[t - 1] + 1
  }

  lemma CountOneWord(words: seq<nat>, idxs: seq<nat>, t: nat)
    requires NonzeroWords(words, idxs) && t < |idxs|
    ensures idxs[t] < |words| && After(idxs, t) <= idxs[t]
    ensures SumOfCounts(words, After(idxs, t + 1)) == SumOfCounts(words, After(idxs, t)) + PopCount(words[idxs[t]])
  {
    assert idxs[t] in idxs;
    forall j | After(idxs, t) <= j < idxs[t] ensures words[j] == 0 {
      assert forall u | 0 <= u < |idxs| :: idxs[u] < After(idxs, t) || idxs[t] <= idxs[u];
    }
    ZeroWordsAddNothing(words, After(idxs, t), idxs[t]);
  }

  lemma CountAllWords(words: seq<nat>, idxs: seq<nat>, nonzero: nat, maxSize: nat)
    requires NonzeroWords(words, idxs) && Consistent(words, nonzero, maxSize)
    ensures After(idxs, |idxs|) <= |words|
    ensures SumOfCounts(words, After(idxs, |idxs|)) == |Below(words, maxSize)|
  {
    var last := After(idxs, |idxs|);
    if |idxs| > 0 { assert idxs[|idxs| - 1] in idxs; }
    forall j | last <= j < |words| ensures words[j] == 0 {
      assert forall u | 0 <= u < |idxs| :: idxs[u] < last;
    }
    ZeroWordsAddNothing(words, last, |words|);
    SizeIsSum(words, |words|);
    assert Below(words, 64 * |words|) == Below(words, maxSize);
  }

  lemma VisitOneWord(words: seq<nat>, visited: seq<nat>, idxs: seq<nat>, t: nat, mods: seq<nat>)
    requires NonzeroWords(words, idxs) && t < |idxs| && idxs[t] < |words|
    requires Ascending(visited) && forall i: nat :: i in visited <==> Has(words, i) && i / 64 in idxs[..t]
    requires Ascending(mods) && forall k: nat :: k in mods <==> k < 64 && Bit(words[idxs[t]], k)
    ensures Ascending(visited + Shifted(mods, idxs[t] * 64))
    ensures forall i: nat :: i in visited + Shifted(mods, idxs[t] * 64) <==> Has(words, i) && i / 64 in idxs[..t + 1]
  {
    var j, added := idxs[t], Shifted(mods, idxs[t] * 64);
    forall i: nat ensures i in added <==> Has(words, i) && i / 64 == j {
      if i in added {
        var u :| 0 <= u < |added| && added[u] == i;
        assert mods[u] in mods;
        HasAt(words, j, mods[u]);
        ModuloUnique(i, 64, j, mods[u]);
      }
      if Has(words, i) && i / 64 == j {
        assert i % 64 in mods;
        var u :| 0 <= u < |mods| && mods[u] == i % 64;
        assert added[u] == i;
      }
    }
    forall a, b | 0 <= a < |visited| && 0 <= b < |added| ensures visited[a] < added[b] {
      assert visited[a] in visited && added[b] in added;
      var u :| 0 <= u < t && idxs[u] == visited[a] / 64;
    }
    assert idxs[..t + 1] == idxs[..t] + [j];
  }

  lemma FullUsesAllWords(words: seq<nat>, nonzero: nat, maxSize: nat)
    requires Consistent(words, nonzero, maxSize)
    requires forall i: nat | i < maxSize :: Has(words, i)
    ensures Members(nonzero, 64) == UpTo(|words|)
  {
    forall j: nat ensures j in Members(nonzero, 64) <==> j < |words| {
      if j < |words| {
        assert Has(words, 64 * j);
        WordOfMember(words, nonzero, maxSize, 64 * j);
      }
    }
  }

  ghost predicate Full(words: seq<nat>, maxSize: nat)
  {
    forall i: nat | i < maxSize :: Has(words, i)
  }

  lemma FullBySize(words: seq<nat>, maxSize: nat)
    ensures Full(words, maxSize) <==> |Below(words, maxSize)| == maxSize
  {
    var b := Below(words, maxSize);
    SubsetSize(b, UpTo(maxSize));
    if Full(words, maxSize) { assert b == UpTo(maxSize); }
    if |b| == maxSize {
      forall i: nat | i < maxSize ensures Has(words, i) { assert i in UpTo(maxSize) && i in b; }
    }
  }

  /** A full set has every word in use, so both counts say so; and conversely. */
  lemma FullMeaning(words: seq<nat>, nonzero: nat, maxSize: nat)
    requires Consistent(words, nonzero, maxSize)
    ensures Full(words, maxSize) <==> PopCount(nonzero) == |words| && |Below(words, maxSize)| == maxSize
  {
    FullBySize(words, maxSize);
    WordIsPower();
    PopCountIsSize(nonzero, 64);
    if Full(words, maxSize) { FullUsesAllWords(words, nonzero, maxSize); }
  }
}
