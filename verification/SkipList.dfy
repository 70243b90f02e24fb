/** A counter with wrap-around that can skip values: a circular doubly linked list
    of indices, each link packed into one 32-bit word. */
module SkipList {
  import opened Bits
  import opened Sets

  const K_MAX_NUM: nat := 0x4000    // 1 << 14
  const NEXT_UNIT: nat := 0x4_0000  // 1 << 18, the place of the next field

  // ----- one link: `next` at the top, `prev` at the bottom, a flag above `prev` -----

  function LinkNext(bits: nat): nat { bits / NEXT_UNIT }

  function LinkPrev(bits: nat): nat { And(bits, K_MAX_NUM - 1) }

  predicate LinkRemoved(bits: nat) { And(bits, K_MAX_NUM) != 0 }

  function Remove(bits: nat): nat { Or(bits, K_MAX_NUM) }

  /** Clears the old field with the mask `~0u >> 14`. */
  function SetNext(bits: nat, next: nat): nat
  {
    Or(And(bits, 0x3_FFFF), next * NEXT_UNIT)
  }

  /** Clears the old field with the mask `~0x3FFF`. */
  function SetPrev(bits: nat, prev: nat): nat
  {
    Or(And(bits, 0xFFFF_C000), prev)
  }

  function MakeLink(pos: nat, num: nat): nat
    requires pos < num
  {
    var prev := if pos == 0 then num - 1 else pos - 1;
    var next := if pos == num - 1 then 0 else pos + 1;
    Or(next * NEXT_UNIT, prev)
  }

  /** What a word holds. */
  datatype Link = Link(next: nat, removed: bool, prev: nat)

  predicate Fits(l: Link) { l.next < K_MAX_NUM && l.prev < K_MAX_NUM }

  function Flag(removed: bool): nat { if removed then K_MAX_NUM else 0 }

  function Packed(l: Link): nat
  {
    l.next * NEXT_UNIT + Flag(l.removed) + l.prev
  }

  lemma Powers()
    ensures Pow2(14) == K_MAX_NUM && Pow2(18) == NEXT_UNIT && Pow2(32) == 0x1_0000_0000
  {
    assert Pow2(4) == 16;
    assert Pow2(8) == 256;
    assert Pow2(12) == 4096;
    assert Pow2(16) == 65536;
    assert Pow2(20) == 1048576;
    assert Pow2(24) == 16777216;
    assert Pow2(28) == 268435456;
  }

  /** The two ways of splitting a word. */
  lemma PackedParts(l: Link)
    requires Fits(l)
    ensures Packed(l) < 0x1_0000_0000
    ensures Packed(l) / NEXT_UNIT == l.next && Packed(l) % NEXT_UNIT == Flag(l.removed) + l.prev
    ensures Packed(l) / K_MAX_NUM == 16 * l.next + (if l.removed then 1 else 0) && Packed(l) % K_MAX_NUM == l.prev
  {
  }

  /** Reading: each field comes back, whatever the others are. */
  lemma PackedFields(l: Link)
    requires Fits(l)
    ensures LinkNext(Packed(l)) == l.next && LinkPrev(Packed(l)) == l.prev && (LinkRemoved(Packed(l)) <==> l.removed)
  {
    hide And, Pow2, Packed;
    Powers();
    PackedParts(l);
    AndMask(Packed(l), 14);
    FlagTest(Packed(l), 14);
    LowestDigit(l.next, l.removed);
  }

  lemma FlagTest(w: nat, k: nat)
    ensures And(w, Pow2(k)) != 0 <==> (w / Pow2(k)) % 2 == 1
  {
    AndPower(w, k);
    BitIsQuotient(w, k);
  }

  lemma LowestDigit(next: nat, removed: bool)
    ensures (16 * next + if removed then 1 else 0) % 2 == if removed then 1 else 0
  {
  }

  /** Writing: only the field written changes. */
  lemma NextUpdate(l: Link, x: nat)
    requires Fits(l) && x < K_MAX_NUM
    ensures SetNext(Packed(l), x) == Packed(l.(next := x))
  {
    hide And, Or, Pow2;
    Powers();
    PackedParts(l);
    var low := Packed(l) % NEXT_UNIT;
    AndMask(Packed(l), 18);
    OrCommutes(low, x * NEXT_UNIT);
    OrDisjoint(x, 18, low);
  }

  lemma PrevUpdate(l: Link, x: nat)
    requires Fits(l) && x < K_MAX_NUM
    ensures SetPrev(Packed(l), x) == Packed(l.(prev := x))
  {
    hide And, Or, Pow2;
    Powers();
    PackedParts(l);
    AndHighMask(Packed(l), 32, 14);
    OrDisjoint(Packed(l) / K_MAX_NUM, 14, x);
  }

  lemma RemoveUpdate(l: Link)
    requires Fits(l)
    ensures Remove(Packed(l)) == Packed(l.(removed := true))
  {
    hide Or, Pow2, Bit;
    Powers();
    PackedParts(l);
    LowestDigit(l.next, l.removed);
    BitIsQuotient(Packed(l), 14);
    OrPower(Packed(l), 14);
  }

  lemma MadeLink(pos: nat, num: nat)
    requires pos < num < K_MAX_NUM
    ensures MakeLink(pos, num) ==
      Packed(Link(if pos == num - 1 then 0 else pos + 1, false, if pos == 0 then num - 1 else pos - 1))
  {
    hide Or, Pow2;
    Powers();
    OrDisjoint(if pos == num - 1 then 0 else pos + 1, 18, if pos == 0 then num - 1 else pos - 1);
  }

  // ----- the ring -----

  /** `q` follows `p` among the live positions: the next larger one, or the smallest
      of all if `p` is the largest. */
  ghost predicate Follows(live: set<nat>, p: nat, q: nat)
  {
    q in live &&
    if p < q then forall x | x in live :: !(p < x < q)
    else forall x | x in live :: q <= x <= p
  }

  lemma FollowerUnique(live: set<nat>, p: nat, q: nat, r: nat)
    requires p in live && Follows(live, p, q) && Follows(live, p, r)
    ensures q == r
  {
  }

  lemma PredecessorUnique(live: set<nat>, p: nat, r: nat, q: nat)
    requires p in live && r in live && Follows(live, p, q) && Follows(live, r, q)
    ensures p == r
  {
  }

  lemma FollowsItself(live: set<nat>, p: nat)
    requires p in live && Follows(live, p, p)
    ensures live == {p}
  {
  }

  /** Taking out `pos` joins its neighbours and leaves every other pair alone. */
  lemma SkippingJoins(live: set<nat>, a: nat, pos: nat, b: nat)
    requires a in live && pos in live && a != pos && b != pos
    requires Follows(live, a, pos) && Follows(live, pos, b)
    ensures Follows(live - {pos}, a, b)
    ensures forall p, q | p in live && q != pos && Follows(live, p, q) :: Follows(live - {pos}, p, q)
  {
  }

  /** Position `p` is linked to `n` and `v`, its neighbours if it is live. */
  ghost predicate Linked(links: seq<nat>, live: set<nat>, p: nat, n: nat, v: nat)
    requires p < |links|
  {
    && Fits(Link(n, p !in live, v)) && links[p] == Packed(Link(n, p !in live, v))
    && (p in live ==> Follows(live, p, n) && v in live && Follows(live, v, p))
  }

  ghost predicate Ring(links: seq<nat>, live: set<nat>)
  {
    && |links| < K_MAX_NUM && (links != [] ==> live != {})
    && (forall p | p in live :: p < |links|)
    && (forall p | 0 <= p < |links| :: Linked(links, live, p, LinkNext(links[p]), LinkPrev(links[p])))
  }

  lemma LinkedFields(links: seq<nat>, live: set<nat>, p: nat, n: nat, v: nat)
    requires p < |links| && Linked(links, live, p, n, v)
    ensures LinkNext(links[p]) == n && LinkPrev(links[p]) == v && (LinkRemoved(links[p]) <==> p !in live)
  {
    PackedFields(Link(n, p !in live, v));
  }

  lemma InitialRing(links: seq<nat>, num: nat)
    requires num < K_MAX_NUM && |links| == num
    requires forall p | 0 <= p < num :: links[p] == MakeLink(p, num)
    ensures Ring(links, UpTo(num))
  {
    forall p | 0 <= p < num ensures Linked(links, UpTo(num), p, LinkNext(links[p]), LinkPrev(links[p])) {
      MadeLink(p, num);
      LinkedFields(links, UpTo(num), p, if p == num - 1 then 0 else p + 1, if p == 0 then num - 1 else p - 1);
    }
    if num > 0 { assert 0 in UpTo(num); }
  }

  /** Unlinking `pos` from its neighbours. */
  function Unlinked(links: seq<nat>, pos: nat, prev: nat, next: nat): (r: seq<nat>)
    requires pos < |links| && prev < |links| && next < |links|
    ensures |r| == |links|
  {
    var links1 := links[next := SetPrev(links[next], prev)];
    var links2 := links1[prev := SetNext(links1[prev], next)];
    links2[pos := Remove(links2[pos])]
  }

  /** What unlinking writes: neighbours are rejoined and `pos` is marked removed. */
  lemma UnlinkedWord(links: seq<nat>, pos: nat, a: nat, b: nat, p: nat, l: Link)
    requires pos < |links| && a < |links| && b < |links| && p < |links| && a != pos && b != pos
    requires a < K_MAX_NUM && b < K_MAX_NUM && Fits(l) && links[p] == Packed(l)
    ensures Unlinked(links, pos, a, b)[p]
         == Packed(Link(if p == a then b else l.next, p == pos || l.removed, if p == b then a else l.prev))
  {
    if p == b { PrevUpdate(l, a); }
    if p == a { NextUpdate(if p == b then l.(prev := a) else l, b); }
    if p == pos { RemoveUpdate(l); }
  }

  /** The neighbours of the positions that stay live. */
  lemma RejoinedNeighbours(live: set<nat>, pos: nat, a: nat, b: nat, p: nat, n: nat, v: nat)
    requires a in live && pos in live && b in live && a != pos && b != pos
    requires Follows(live, a, pos) && Follows(live, pos, b)
    requires p in live && p != pos && Follows(live, p, n) && v in live && Follows(live, v, p)
    ensures var rest := live - {pos};
      Follows(rest, p, if p == a then b else n) &&
      (if p == b then a else v) in rest && Follows(rest, if p == b then a else v, p)
  {
    SkippingJoins(live, a, pos, b);
    if n == pos { PredecessorUnique(live, p, a, pos); }
    if v == pos { FollowerUnique(live, pos, p, b); }
    if p == a { FollowerUnique(live, p, n, pos); }
    if p == b { PredecessorUnique(live, v, pos, p); }
  }

  lemma UnlinkedRing(links: seq<nat>, live: set<nat>, pos: nat)
    requires Ring(links, live) && pos in live && LinkPrev(links[pos]) != pos && LinkNext(links[pos]) != pos
    ensures LinkPrev(links[pos]) < |links| && LinkNext(links[pos]) < |links|
    ensures Ring(Unlinked(links, pos, LinkPrev(links[pos]), LinkNext(links[pos])), live - {pos})
  {
    hide Packed, Unlinked, LinkNext, LinkPrev, Follows;
    var a, b := LinkPrev(links[pos]), LinkNext(links[pos]);
    NextIsLive(live, pos, b);
    var after, rest := Unlinked(links, pos, a, b), live - {pos};
    forall p | 0 <= p < |links| ensures Linked(after, rest, p, LinkNext(after[p]), LinkPrev(after[p])) {
      var n, v := LinkNext(links[p]), LinkPrev(links[p]);
      UnlinkedWord(links, pos, a, b, p, Link(n, p !in live, v));
      if p in rest { RejoinedNeighbours(live, pos, a, b, p, n, v); }
      LinkedFields(after, rest, p, if p == a then b else n, if p == b then a else v);
    }
    assert a in rest;
  }

  lemma NextIsLive(live: set<nat>, p: nat, q: nat)
    requires Follows(live, p, q)
    ensures q in live
  {
  }

  class NextWithSkip {
    var links: seq<nat>
    ghost var live: set<nat>

    ghost predicate Valid()
      reads this
    {
      Ring(links, live)
    }

    constructor (num: nat)
      requires num < K_MAX_NUM
      ensures Valid() && |links| == num && live == UpTo(num)
    {
      links := [];
      live := UpTo(num);
      new;
      for i := 0 to num
        invariant |links| == i && live == UpTo(num)
        invariant forall p | 0 <= p < i :: links[p] == MakeLink(p, num)
      {
        links := links + [MakeLink(i, num)];
      }
      InitialRing(links, num);
    }

    method Next(pos: nat) returns (next: nat)
      requires Valid() && pos in live
      ensures Follows(live, pos, next)
    {
      next := LinkNext(links[pos]);
    }

    /** Ignores an attempt to skip the last remaining position. */
    method Skip(pos: nat)
      requires Valid() && pos in live
      modifies this
      ensures Valid() && |links| == old(|links|)
      ensures live == if old(live) == {pos} then {pos} else old(live) - {pos}
    {
      var prev, next := LinkPrev(links[pos]), LinkNext(links[pos]);
      if prev == pos || next == pos {
        FollowsItself(live, pos);
        return;
      }
      UnlinkedRing(links, live, pos);
      links := links[next := SetPrev(links[next], prev)];
      links := links[prev := SetNext(links[prev], next)];
      links := links[pos := Remove(links[pos])];
      live := live - {pos};
    }
  }

  /** In a ring the previous link undoes the next link, and a position is marked
      removed exactly when it is not live. */
  lemma PrevUndoesNext(links: seq<nat>, live: set<nat>, p: nat)
    requires Ring(links, live) && p < |links|
    ensures LinkRemoved(links[p]) <==> p !in live
    ensures p in live ==> LinkNext(links[p]) in live && LinkPrev(links[LinkNext(links[p])]) == p
    ensures p in live ==> LinkPrev(links[p]) in live && LinkNext(links[LinkPrev(links[p])]) == p
  {
    LinkedFields(links, live, p, LinkNext(links[p]), LinkPrev(links[p]));
    if p in live {
      var q, r := LinkNext(links[p]), LinkPrev(links[p]);
      PredecessorUnique(live, p, LinkPrev(links[q]), q);
      FollowerUnique(live, r, p, LinkNext(links[r]));
    }
  }
}
