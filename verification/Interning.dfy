/** Interning expressions into a shared graph: equal subtrees of one type are
    stored once, and every stored node counts its uses. */
module Interning {
  import opened Wrappers
  import opened Exprs

  datatype DagNode = DagNode(id: nat, hash: Hash, expr: Expr, children: seq<nat>, useCount: nat)

  type Nodes = map<nat, DagNode>
  type Buckets = map<Hash, seq<nat>>

  /** What one lookup merges: one C++ type and structural equality. */
  predicate Same(a: Expr, b: Expr)
  {
    ShapeOf(a) == ShapeOf(b) && StructuralEqual(a, b)
  }

  // ----- the shape of a graph -----

  /** Node `id` stands for `e`. */
  predicate Represents(nodes: Nodes, id: nat, e: Expr)
  {
    id in nodes && (nodes[id].expr == e || Same(nodes[id].expr, e))
  }

  /** The children of node `id` stand for the children of its expression and are older. */
  predicate GoodNode(nodes: Nodes, id: nat, mem: Memory)
    requires id in nodes
  {
    var n := nodes[id];
    n.id == id && n.useCount >= 1 && InMemory(n.expr, mem) &&
    if n.expr.Node? then
      |n.children| == |n.expr.children| &&
      forall i | 0 <= i < |n.children| :: n.children[i] < id && Represents(nodes, n.children[i], n.expr.children[i])
    else n.children == []
  }

  ghost predicate Stored(nodes: Nodes, nextId: nat, mem: Memory)
  {
    && (forall id :: id in nodes <==> 1 <= id < nextId)
    && (forall id {:trigger GoodNode(nodes, id, mem)} | id in nodes :: GoodNode(nodes, id, mem))
  }

  /** Buckets index every node under its own hash and nothing else. */
  ghost predicate Indexed(nodes: Nodes, buckets: Buckets, number: int -> Hash)
  {
    && (forall id | id in nodes :: nodes[id].hash == StructuralHash(nodes[id].expr, number))
    && (forall id | id in nodes :: nodes[id].hash in buckets && id in buckets[nodes[id].hash])
    && (forall h, id | h in buckets && id in buckets[h] :: id in nodes && nodes[id].hash == h)
  }

  /** Maximal sharing: no two stored nodes could have been merged. */
  ghost predicate Unshareable(nodes: Nodes)
  {
    forall i, j {:trigger Same(nodes[i].expr, nodes[j].expr)} |
      i in nodes && j in nodes && i != j :: !Same(nodes[i].expr, nodes[j].expr)
  }

  /** How often `k` occurs in `ids`. */
  function Occurrences(ids: seq<nat>, k: nat): (c: nat)
    ensures c > 0 <==> k in ids
  {
    if ids == [] then 0 else Occurrences(ids[..|ids| - 1], k) + if ids[|ids| - 1] == k then 1 else 0
  }

  /** How many child slots of nodes below `n` hold `id`. */
  function Slots(nodes: Nodes, n: nat, id: nat): nat
  {
    if n == 0 then 0
    else Slots(nodes, n - 1, id) + if n - 1 in nodes then Occurrences(nodes[n - 1].children, id) else 0
  }

  /** For every id, how many calls returned it that no parent has taken up. */
  type Calls = map<nat, int>

  function CallsOf(returned: Calls, id: nat): int
  {
    if id in returned then returned[id] else 0
  }

  function WithCalls(returned: Calls, id: nat, n: int): (r: Calls)
    ensures forall k :: CallsOf(r, k) == CallsOf(returned, k) + if k == id then n else 0
  {
    returned[id := CallsOf(returned, id) + n]
  }

  /** The calls for the children are taken up by the call for their parent. */
  function Handed(returned: Calls, childIds: seq<nat>, id: nat): Calls
  {
    if childIds == [] then WithCalls(returned, id, 1)
    else WithCalls(Handed(returned, childIds[..|childIds| - 1], id), childIds[|childIds| - 1], -1)
  }

  lemma {:induction false} HandedCalls(returned: Calls, childIds: seq<nat>, id: nat, k: nat)
    ensures CallsOf(Handed(returned, childIds, id), k)
         == CallsOf(returned, k) - Occurrences(childIds, k) + if k == id then 1 else 0
  {
    if childIds != [] { HandedCalls(returned, childIds[..|childIds| - 1], id, k); }
  }

  /** Every use count is two for each slot plus one for each call in `returned`. */
  ghost predicate Counted(nodes: Nodes, nextId: nat, returned: Calls)
  {
    && (forall id {:trigger Slots(nodes, nextId, id)} | id in nodes ::
          nodes[id].useCount == 2 * Slots(nodes, nextId, id) + CallsOf(returned, id))
    && (forall id {:trigger CallsOf(returned, id)} | CallsOf(returned, id) != 0 :: id in nodes)
  }

  /** `after` holds the nodes of `before` with at most their use counts changed. */
  ghost predicate Extends(before: Nodes, after: Nodes)
  {
    forall id | id in before :: id in after && after[id] == before[id].(useCount := after[id].useCount)
  }

  /** How many tree nodes a type spells out: strictly more than any child's. */
  function NodeCount(s: Shape): nat
    decreases s, if s.NodeShape? then |s.children| + 1 else 0
  {
    if s.NodeShape? then 1 + NodeCounts(s, |s.children|) else 0
  }

  function NodeCounts(s: Shape, n: nat): (c: nat)
    requires s.NodeShape? && n <= |s.children|
    ensures forall i | 0 <= i < n :: NodeCount(s.children[i]) <= c
    decreases s, n
  {
    if n == 0 then 0 else NodeCounts(s, n - 1) + NodeCount(s.children[n - 1])
  }

  lemma ChildCountsLess(e: Expr, i: nat)
    requires e.Node? && i < |e.children|
    ensures NodeCount(ShapeOf(e.children[i])) < NodeCount(ShapeOf(e))
  {
    var s := ShapeOf(e);
    assert s.children[i] == ShapeOf(e.children[i]);
  }

  // ----- lemmas about merging -----

  lemma SameImpliesComparable(a: Expr, b: Expr, mem: Memory)
    requires InMemory(a, mem) && InMemory(b, mem) && StructuralEqual(a, b)
    ensures Comparable(a) && Comparable(b)
  {
    EqualSymmetric(a, b);
    EqualTransitive(a, b, a, mem); EqualReflexive(a);
    EqualTransitive(b, a, b, mem); EqualReflexive(b);
  }

  lemma RepresentativesMerge(x1: Expr, e1: Expr, x2: Expr, e2: Expr, mem: Memory)
    requires InMemory(x1, mem) && InMemory(x2, mem) && InMemory(e1, mem) && InMemory(e2, mem)
    requires x1 == e1 || Same(x1, e1)
    requires x2 == e2 || Same(x2, e2)
    requires Same(e1, e2)
    ensures Same(x1, x2)
  {
    hide StructuralEqual, ShapeOf, InMemory;
    if x1 != e1 { EqualTransitive(x1, e1, e2, mem); }
    if x2 != e2 {
      EqualSymmetric(x2, e2);
      EqualTransitive(x1, e2, x2, mem);
    }
  }

  /** Two interned expressions share an id exactly when type and structure agree; or
      when the node holds that very expression, which does not even equal itself. */
  lemma SameIdIffSame(nodes: Nodes, mem: Memory, e1: Expr, id1: nat, e2: Expr, id2: nat)
    requires Unshareable(nodes) && Represents(nodes, id1, e1) && Represents(nodes, id2, e2)
    requires InMemory(e1, mem) && InMemory(e2, mem)
    requires InMemory(nodes[id1].expr, mem) && InMemory(nodes[id2].expr, mem)
    ensures Same(e1, e2) ==> id1 == id2
    ensures id1 == id2 ==> Same(e1, e2) || (!Comparable(e1) && e1 == e2 == nodes[id1].expr)
  {
    var x1, x2 := nodes[id1].expr, nodes[id2].expr;
    if id1 == id2 {
      EqualReflexive(x1); EqualReflexive(e1); EqualReflexive(e2);
      EqualSymmetric(x1, e1);
      if x1 != e1 && x1 != e2 { EqualTransitive(e1, x1, e2, mem); }
    } else if Same(e1, e2) {
      RepresentativesMerge(x1, e1, x2, e2, mem);
    }
  }

  /** The expression a node stands for, read back from the graph alone. */
  function Unfold(nodes: Nodes, id: nat, mem: Memory): Expr
    requires id in nodes && forall k | k in nodes :: GoodNode(nodes, k, mem)
  {
    var n := nodes[id];
    assert GoodNode(nodes, id, mem);
    if n.expr.Node? then
      Node(n.expr.tag, seq(|n.children|, i requires 0 <= i < |n.children| =>
        assert Represents(nodes, n.children[i], n.expr.children[i]);
        Unfold(nodes, n.children[i], mem)))
    else n.expr
  }

  /** Reading an id back gives the type of what was interned, and a structurally
      equal expression exactly when no terminal without equality is held by value. */
  lemma {:induction false} UnfoldGivesBack(nodes: Nodes, mem: Memory, id: nat, e: Expr)
    requires forall k | k in nodes :: GoodNode(nodes, k, mem)
    requires Represents(nodes, id, e) && InMemory(e, mem)
    ensures ShapeOf(Unfold(nodes, id, mem)) == ShapeOf(e) && InMemory(Unfold(nodes, id, mem), mem)
    ensures StructuralEqual(Unfold(nodes, id, mem), e) <==> Comparable(e)
    decreases id
  {
    var n, u := nodes[id], Unfold(nodes, id, mem);
    assert GoodNode(nodes, id, mem);
    var x := n.expr;
    if x.Node? {
      forall i | 0 <= i < |n.children|
        ensures ShapeOf(u.children[i]) == ShapeOf(x.children[i]) && InMemory(u.children[i], mem)
        ensures StructuralEqual(u.children[i], x.children[i]) <==> Comparable(x.children[i])
      {
        assert n.children[i] < id && Represents(nodes, n.children[i], x.children[i]);
        UnfoldGivesBack(nodes, mem, n.children[i], x.children[i]);
      }
      assert ShapeOf(u) == ShapeOf(x);
    } else {
      EqualReflexive(x);
    }
    assert StructuralEqual(u, x) <==> Comparable(x);
    if x != e {
      SameImpliesComparable(x, e, mem);
      EqualTransitive(u, x, e, mem);
    }
  }

  // ----- lemmas about counting -----

  lemma {:induction false} SlotsDependOnChildren(a: Nodes, b: Nodes, n: nat, id: nat)
    requires forall k | 0 <= k < n :: (k in a <==> k in b) && (k in a ==> a[k].children == b[k].children)
    ensures Slots(a, n, id) == Slots(b, n, id)
  {
    if n > 0 { SlotsDependOnChildren(a, b, n - 1, id); }
  }

  lemma {:induction false} NoSlotForTheYoungest(nodes: Nodes, n: nat, id: nat)
    requires forall k, i | k in nodes && 0 <= i < |nodes[k].children| :: nodes[k].children[i] < k
    requires n <= id + 1
    ensures Slots(nodes, n, id) == 0
  {
    if n > 0 { NoSlotForTheYoungest(nodes, n - 1, id); }
  }

  // ----- what adding a node keeps -----

  /** `after` is `before` with node `id` for `e` added and its children used once more. */
  ghost predicate Added(before: Nodes, after: Nodes, id: nat, hash: Hash, e: Expr, childIds: seq<nat>)
  {
    && after.Keys == before.Keys + {id} && id !in before
    && Extends(before, after)
    && (forall k | k in before :: after[k].useCount == before[k].useCount + Occurrences(childIds, k))
    && after[id] == DagNode(id, hash, e, childIds, 1)
  }

  /** `childIds` stand for the children of `e`. */
  ghost predicate Covers(nodes: Nodes, childIds: seq<nat>, e: Expr)
  {
    if e.Node? then
      |childIds| == |e.children| && forall i | 0 <= i < |childIds| :: Represents(nodes, childIds[i], e.children[i])
    else childIds == []
  }

  lemma InsertedThenUsed(before: Nodes, after: Nodes, nextId: nat, hash: Hash, e: Expr, childIds: seq<nat>)
    requires forall k | k in before :: k < nextId
    requires forall c | c in childIds :: c in before
    requires var mid := before[nextId := DagNode(nextId, hash, e, childIds, 1)];
      Extends(mid, after) && after.Keys == mid.Keys &&
      forall k | k in after :: after[k].useCount == mid[k].useCount + Occurrences(childIds, k)
    ensures Added(before, after, nextId, hash, e, childIds)
  {
    var mid := before[nextId := DagNode(nextId, hash, e, childIds, 1)];
    assert nextId in mid && Occurrences(childIds, nextId) == 0;
    forall k | k in before ensures k in mid && mid[k] == before[k] {}
  }

  lemma CoveringIdsExist(nodes: Nodes, childIds: seq<nat>, e: Expr)
    requires Covers(nodes, childIds, e)
    ensures forall c | c in childIds :: c in nodes
  {
    forall c | c in childIds ensures c in nodes {
      var i :| 0 <= i < |childIds| && childIds[i] == c;
      assert Represents(nodes, childIds[i], e.children[i]);
    }
  }

  lemma ChildrenAreOlder(nodes: Nodes, nextId: nat, mem: Memory)
    requires Stored(nodes, nextId, mem)
    ensures forall k, i | k in nodes && 0 <= i < |nodes[k].children| :: nodes[k].children[i] < k
  {
    forall k, i | k in nodes && 0 <= i < |nodes[k].children| ensures nodes[k].children[i] < k {
      assert GoodNode(nodes, k, mem);
    }
  }

  lemma GoodNodeStays(before: Nodes, after: Nodes, id: nat, mem: Memory)
    requires id in before && GoodNode(before, id, mem)
    requires Extends(before, after) && after[id].useCount >= 1
    ensures GoodNode(after, id, mem)
  {
    var n := before[id];
    forall i | 0 <= i < |n.children| && n.expr.Node? ensures Represents(after, n.children[i], n.expr.children[i]) {
      assert Represents(before, n.children[i], n.expr.children[i]);
    }
  }

  lemma AddedStored(before: Nodes, after: Nodes, id: nat, hash: Hash, e: Expr, childIds: seq<nat>, mem: Memory)
    requires Stored(before, id, mem) && id >= 1 && Added(before, after, id, hash, e, childIds)
    requires Covers(before, childIds, e) && InMemory(e, mem)
    ensures Stored(after, id + 1, mem)
  {
    forall k | k in after ensures GoodNode(after, k, mem) {
      if k in before {
        GoodNodeStays(before, after, k, mem);
      } else {
        forall i | 0 <= i < |childIds| ensures childIds[i] < id && Represents(after, childIds[i], e.children[i]) {
          assert Represents(before, childIds[i], e.children[i]);
        }
      }
    }
  }

  lemma AddedIndexed(before: Nodes, after: Nodes, id: nat, e: Expr, childIds: seq<nat>,
                     buckets: Buckets, number: int -> Hash)
    requires Indexed(before, buckets, number)
    requires Added(before, after, id, StructuralHash(e, number), e, childIds)
    ensures Indexed(after, WithId(buckets, StructuralHash(e, number), id), number)
  {
    hide StructuralHash, Occurrences;
    var h := StructuralHash(e, number);
    var b := WithId(buckets, h, id);
    forall k | k in after ensures after[k].hash in b && k in b[after[k].hash] {
      if k == id { assert b[h][|b[h]| - 1] == id; } else { assert k in buckets[before[k].hash]; }
    }
  }

  lemma AddedUnshareable(before: Nodes, after: Nodes, id: nat, hash: Hash, e: Expr, childIds: seq<nat>)
    requires Unshareable(before) && Added(before, after, id, hash, e, childIds)
    requires forall k | k in before :: !Same(before[k].expr, e)
    ensures Unshareable(after)
  {
    forall k | k in before ensures !Same(e, before[k].expr) { EqualSymmetric(e, before[k].expr); }
    hide Same;
  }

  lemma AddedCountAt(before: Nodes, after: Nodes, id: nat, hash: Hash, e: Expr, childIds: seq<nat>,
                     returned: Calls, k: nat)
    requires Added(before, after, id, hash, e, childIds) && k in before && k < id
    requires forall j | j in before :: j < id
    requires before[k].useCount == 2 * Slots(before, id, k) + CallsOf(returned, k)
    ensures after[k].useCount == 2 * Slots(after, id + 1, k) + CallsOf(Handed(returned, childIds, id), k)
  {
    SlotsDependOnChildren(before, after, id, k);
    HandedCalls(returned, childIds, id, k);
  }

  lemma AddedCounted(before: Nodes, after: Nodes, id: nat, hash: Hash, e: Expr, childIds: seq<nat>, returned: Calls)
    requires forall k | k in before :: k < id
    requires forall k, i | k in after && 0 <= i < |after[k].children| :: after[k].children[i] < k
    requires Counted(before, id, returned) && Added(before, after, id, hash, e, childIds)
    requires forall c | c in childIds :: c in before
    ensures Counted(after, id + 1, Handed(returned, childIds, id))
  {
    assert CallsOf(returned, id) == 0;
    HandedCalls(returned, childIds, id, id);
    forall k | k in after
      ensures after[k].useCount == 2 * Slots(after, id + 1, k) + CallsOf(Handed(returned, childIds, id), k)
    {
      if k == id {
        NoSlotForTheYoungest(after, id + 1, id);
      } else {
        AddedCountAt(before, after, id, hash, e, childIds, returned, k);
      }
    }
    forall k | CallsOf(Handed(returned, childIds, id), k) != 0 ensures k in after {
      HandedCalls(returned, childIds, id, k);
    }
  }

  /** Everything that holds of a builder between calls. */
  ghost predicate Consistent(nodes: Nodes, buckets: Buckets, nextId: nat, number: int -> Hash, mem: Memory,
                             returned: Calls)
  {
    && nextId >= 1
    && Stored(nodes, nextId, mem) && Indexed(nodes, buckets, number)
    && Unshareable(nodes) && Counted(nodes, nextId, returned)
  }

  lemma AddedConsistent(before: Nodes, after: Nodes, id: nat, e: Expr, childIds: seq<nat>,
                        buckets: Buckets, newBuckets: Buckets, nextId: nat,
                        number: int -> Hash, mem: Memory, returned: Calls, newReturned: Calls)
    requires Consistent(before, buckets, id, number, mem, returned)
    requires Added(before, after, id, StructuralHash(e, number), e, childIds)
    requires InMemory(e, mem) && Covers(before, childIds, e)
    requires forall k | k in before :: !Same(before[k].expr, e)
    requires newBuckets == WithId(buckets, StructuralHash(e, number), id) && nextId == id + 1
    requires newReturned == Handed(returned, childIds, id)
    ensures Consistent(after, newBuckets, nextId, number, mem, newReturned)
  {
    hide StructuralHash, Slots, CallsOf, Occurrences, GoodNode, InMemory, Represents, Handed, WithId, Indexed;
    AddedUnshareable(before, after, id, StructuralHash(e, number), e, childIds);
    AddedStored(before, after, id, StructuralHash(e, number), e, childIds, mem);
    AddedIndexed(before, after, id, e, childIds, buckets, number);
    ChildrenAreOlder(after, id + 1, mem);
    CoveringIdsExist(before, childIds, e);
    AddedCounted(before, after, id, StructuralHash(e, number), e, childIds, returned);
  }

  lemma UsedStored(before: Nodes, id: nat, nextId: nat, mem: Memory)
    requires Stored(before, nextId, mem) && id in before
    ensures Stored(Used(before, id), nextId, mem)
  {
    forall k | k in before ensures GoodNode(Used(before, id), k, mem) {
      assert GoodNode(before, k, mem);
      GoodNodeStays(before, Used(before, id), k, mem);
    }
  }

  lemma UsedCounted(before: Nodes, id: nat, nextId: nat, returned: Calls)
    requires Counted(before, nextId, returned) && id in before
    ensures Counted(Used(before, id), nextId, WithCalls(returned, id, 1))
  {
    forall k | k in before
      ensures Used(before, id)[k].useCount
           == 2 * Slots(Used(before, id), nextId, k) + CallsOf(WithCalls(returned, id, 1), k)
    {
      SlotsDependOnChildren(before, Used(before, id), nextId, k);
    }
  }

  lemma UsedConsistent(before: Nodes, id: nat, buckets: Buckets, nextId: nat,
                       number: int -> Hash, mem: Memory, returned: Calls)
    requires Consistent(before, buckets, nextId, number, mem, returned) && id in before
    ensures Consistent(Used(before, id), buckets, nextId, number, mem, WithCalls(returned, id, 1))
  {
    UsedStored(before, id, nextId, mem);
    UsedCounted(before, id, nextId, returned);
  }

  function Used(nodes: Nodes, id: nat): Nodes
    requires id in nodes
  {
    nodes[id := nodes[id].(useCount := nodes[id].useCount + 1)]
  }

  function WithId(buckets: Buckets, h: Hash, id: nat): Buckets
  {
    buckets[h := (if h in buckets then buckets[h] else []) + [id]]
  }

  class DagBuilder {
    var nodes: Nodes
    var buckets: Buckets
    var nextId: nat
    const number: int -> Hash
    ghost const mem: Memory
    /** What intern calls have returned, less what parents took up as children. */
    ghost var returned: Calls

    ghost predicate Valid()
      reads this
    {
      Consistent(nodes, buckets, nextId, number, mem, returned)
    }

    constructor (number: int -> Hash, ghost mem: Memory)
      ensures Valid() && nodes == map[] && nextId == 1 && returned == map[]
      ensures this.number == number && this.mem == mem
    {
      this.number := number;
      this.mem := mem;
      nodes, buckets, nextId, returned := map[], map[], 1, map[];
    }

    /** Steps 1 to 3: the first node in the bucket that the expression merges with. */
    method FindExisting(e: Expr, h: Hash) returns (id: Option<nat>)
      requires Valid() && InMemory(e, mem) && h == StructuralHash(e, number)
      ensures match id
        case Some(k) => k in nodes && Same(nodes[k].expr, e)
        case None => forall k | k in nodes :: !Same(nodes[k].expr, e)
    {
      hide StructuralEqual, ShapeOf, StructuralHash, Slots, CallsOf, Unshareable;
      var bucket := if h in buckets then buckets[h] else [];
      assert forall k | k in bucket :: k in nodes;
      forall k | k in nodes && Same(nodes[k].expr, e) ensures k in bucket {
        assert GoodNode(nodes, k, mem);
        EqualImpliesSameHash(nodes[k].expr, e, number, mem);
      }
      for i := 0 to |bucket|
        invariant forall j | 0 <= j < i :: !Same(nodes[bucket[j]].expr, e)
      {
        if Same(nodes[bucket[i]].expr, e) {
          return Some(bucket[i]);
        }
      }
      id := None;
    }

    /** Step 5: one more use for every child slot. */
    method UseAll(ids: seq<nat>)
      requires forall i | 0 <= i < |ids| :: ids[i] in nodes
      modifies this`nodes
      ensures Extends(old(nodes), nodes) && nodes.Keys == old(nodes.Keys)
      ensures forall k | k in nodes :: nodes[k].useCount == old(nodes)[k].useCount + Occurrences(ids, k)
    {
      for i := 0 to |ids|
        invariant Extends(old(nodes), nodes) && nodes.Keys == old(nodes.Keys)
        invariant forall k | k in nodes :: nodes[k].useCount == old(nodes)[k].useCount + Occurrences(ids[..i], k)
      {
        assert ids[..i + 1] == ids[..i] + [ids[i]];
        nodes := Used(nodes, ids[i]);
      }
      assert ids[..|ids|] == ids;
    }

    /** Steps 4 and 5: a new node over children that were interned before. */
    method AddNode(e: Expr, childIds: seq<nat>) returns (id: nat)
      requires Valid() && InMemory(e, mem)
      requires forall k | k in nodes :: !Same(nodes[k].expr, e)
      requires Covers(nodes, childIds, e)
      modifies this
      ensures Valid() && Added(old(nodes), nodes, id, StructuralHash(e, number), e, childIds)
      ensures id == old(nextId) && nextId == id + 1
      ensures returned == Handed(old(returned), childIds, id)
    {
      hide Same, StructuralHash, Slots, CallsOf, Unshareable, Represents, GoodNode, InMemory, Handed;
      var h := StructuralHash(e, number);
      id := nextId;
      nextId := nextId + 1;
      CoveringIdsExist(nodes, childIds, e);
      nodes := nodes[id := DagNode(id, h, e, childIds, 1)];
      buckets := WithId(buckets, h, id);
      UseAll(childIds);
      returned := Handed(returned, childIds, id);
      InsertedThenUsed(old(nodes), nodes, id, h, e, childIds);
      AddedConsistent(old(nodes), nodes, id, e, childIds, old(buckets), buckets, nextId,
                      number, mem, old(returned), returned);
    }

    /** The whole of intern: reuse a matching node, or intern the children and add one. */
    method Intern(e: Expr) returns (id: nat)
      requires Valid() && InMemory(e, mem)
      modifies this
      ensures Valid() && Extends(old(nodes), nodes) && Represents(nodes, id, e)
      ensures forall k :: CallsOf(returned, k) == CallsOf(old(returned), k) + if k == id then 1 else 0
      ensures id in old(nodes) <==> exists k :: k in old(nodes) && Same(old(nodes)[k].expr, e)
      ensures id in old(nodes) ==> nodes == Used(old(nodes), id)
      ensures id !in old(nodes) ==> nodes[id].expr == e && nextId == id + 1
      ensures OnlySmallerAdded(old(nodes), nodes, NodeCount(ShapeOf(e)))
      decreases e, 2
    {
      hide StructuralHash, Slots, CallsOf, Unshareable, GoodNode, InMemory, Handed, StructuralEqual, NodeCount,
           Occurrences;
      var found := FindExisting(e, StructuralHash(e, number));
      if found.Some? {
        id := found.value;
        UsedConsistent(nodes, id, buckets, nextId, number, mem, returned);
        nodes := Used(nodes, id);
        returned := WithCalls(returned, id, 1);
      } else {
        id := InternNew(e);
      }
    }

    /** Steps 4 and 5, when nothing stored matches: children first. */
    method InternNew(e: Expr) returns (id: nat)
      requires Valid() && InMemory(e, mem)
      requires forall k | k in nodes :: !Same(nodes[k].expr, e)
      modifies this
      ensures Valid() && Extends(old(nodes), nodes) && Represents(nodes, id, e)
      ensures forall k :: CallsOf(returned, k) == CallsOf(old(returned), k) + if k == id then 1 else 0
      ensures id !in old(nodes) && nodes[id].expr == e && nextId == id + 1
      ensures OnlySmallerAdded(old(nodes), nodes, NodeCount(ShapeOf(e)))
      decreases e, 1
    {
      hide StructuralHash, Slots, CallsOf, Unshareable, GoodNode, InMemory, Handed, StructuralEqual, NodeCount,
           Occurrences;
      var childIds := InternChildren(e);
      forall k | k in nodes ensures !Same(nodes[k].expr, e) {
        if k in old(nodes) { assert nodes[k].expr == old(nodes)[k].expr; }
      }
      ghost var handed := returned;
      id := AddNode(e, childIds);
      forall k ensures CallsOf(returned, k) == CallsOf(old(returned), k) + if k == id then 1 else 0 {
        HandedCalls(handed, childIds, id, k);
      }
    }

    /** Any run of calls. */
    method InternEach(es: seq<Expr>) returns (ids: seq<nat>)
      requires Valid() && forall i | 0 <= i < |es| :: InMemory(es[i], mem)
      modifies this
      ensures Valid() && |ids| == |es| && forall i | 0 <= i < |es| :: Represents(nodes, ids[i], es[i])
      ensures ToldApart(es, ids)
      ensures forall k :: CallsOf(returned, k) == CallsOf(old(returned), k) + Occurrences(ids, k)
    {
      hide StructuralHash, Represents, CallsOf, Occurrences, InMemory, Consistent, Extends, Same, Used, ToldApart;
      ids := [];
      NothingCounted();
      NothingToldApart();
      for n := 0 to |es|
        invariant Valid() && |ids| == n && ToldApart(es[..n], ids)
        invariant forall i | 0 <= i < n :: Represents(nodes, ids[i], es[..n][i])
        invariant forall k :: CallsOf(returned, k) == CallsOf(old(returned), k) + Occurrences(ids, k)
      {
        ghost var before := nodes;
        var id := Intern(es[n]);
        RepresentsStays(before, nodes, ids, es[..n]);
        OneMoreToldApart(before, nodes, buckets, nextId, number, mem, returned, es[..n], ids, es[n], id);
        assert es[..n + 1] == es[..n] + [es[n]];
        OccurrencesAppend(ids, id);
        ids := ids + [id];
      }
      assert es[..|es|] == es;
    }

    /** Interns the children of a node in order; a terminal has none. */
    method InternChildren(e: Expr) returns (childIds: seq<nat>)
      requires Valid() && InMemory(e, mem)
      modifies this
      ensures Valid() && Extends(old(nodes), nodes) && Covers(nodes, childIds, e)
      ensures forall k :: CallsOf(returned, k) == CallsOf(old(returned), k) + Occurrences(childIds, k)
      ensures OnlySmallerAdded(old(nodes), nodes, NodeCount(ShapeOf(e)) - 1)
      decreases e, 0
    {
      childIds := [];
      if e.Node? {
        for i := 0 to |e.children|
          invariant Valid() && Extends(old(nodes), nodes)
          invariant CoversFirst(nodes, childIds, e, i)
          invariant forall k :: CallsOf(returned, k) == CallsOf(old(returned), k) + Occurrences(childIds, k)
          invariant OnlySmallerAdded(old(nodes), nodes, NodeCount(ShapeOf(e)) - 1)
        {
          ChildCountsLess(e, i);
          ghost var before, ids := nodes, childIds;
          var c := Intern(e.children[i]);
          childIds := childIds + [c];
          CoversOneMore(before, nodes, ids, c, e, i);
          OccurrencesAppend(ids, c);
        }
      }
    }
  }

  /** `childIds` stand for the first `n` children of `e`. */
  ghost predicate CoversFirst(nodes: Nodes, childIds: seq<nat>, e: Expr, n: nat)
  {
    e.Node? && n <= |e.children| && |childIds| == n &&
    forall j | 0 <= j < n :: Represents(nodes, childIds[j], e.children[j])
  }

  lemma CoversOneMore(before: Nodes, after: Nodes, childIds: seq<nat>, c: nat, e: Expr, n: nat)
    requires CoversFirst(before, childIds, e, n) && Extends(before, after)
    requires n < |e.children| && Represents(after, c, e.children[n])
    ensures CoversFirst(after, childIds + [c], e, n + 1)
  {
    forall j | 0 <= j < n + 1 ensures Represents(after, (childIds + [c])[j], e.children[j]) {
      if j < n { assert Represents(before, childIds[j], e.children[j]); }
    }
  }

  lemma OccurrencesAppend(ids: seq<nat>, c: nat)
    ensures forall k :: Occurrences(ids + [c], k) == Occurrences(ids, k) + if k == c then 1 else 0
  {
    assert (ids + [c])[..|ids + [c]| - 1] == ids;
  }

  /** What `after` has beyond `before` spells out at most `n` tree nodes each. */
  ghost predicate OnlySmallerAdded(before: Nodes, after: Nodes, n: int)
  {
    forall k | k in after && k !in before :: NodeCount(ShapeOf(after[k].expr)) <= n
  }

  // ----- any run of calls -----

  lemma RepresentsStays(before: Nodes, after: Nodes, ids: seq<nat>, es: seq<Expr>)
    requires Extends(before, after) && |ids| == |es|
    requires forall i | 0 <= i < |es| :: Represents(before, ids[i], es[i])
    ensures forall i | 0 <= i < |es| :: Represents(after, ids[i], es[i])
  {
    forall i | 0 <= i < |es| ensures Represents(after, ids[i], es[i]) {
      assert Represents(before, ids[i], es[i]);
    }
  }

  /** Two calls returned one id exactly when type and structure agree. */
  ghost predicate ToldApart(es: seq<Expr>, ids: seq<nat>)
  {
    |ids| == |es| &&
    forall i, j | 0 <= i < |es| && 0 <= j < |es| && i != j :: ids[i] == ids[j] <==> Same(es[i], es[j])
  }

  lemma NothingToldApart()
    ensures ToldApart([], [])
  {
  }

  /** A new call is told apart from each earlier one: an old id was given only because
      a stored node is the same, so the expression equals itself. */
  lemma NewIdTellsApart(before: Nodes, nodes: Nodes, mem: Memory, e1: Expr, id1: nat, e: Expr, id: nat)
    requires forall k | k in nodes :: GoodNode(nodes, k, mem)
    requires Unshareable(nodes) && Extends(before, nodes)
    requires Represents(before, id1, e1) && Represents(nodes, id, e) && InMemory(e1, mem) && InMemory(e, mem)
    requires id in before <==> exists k :: k in before && Same(before[k].expr, e)
    ensures id1 == id <==> Same(e1, e)
    ensures id == id1 <==> Same(e, e1)
  {
    assert GoodNode(nodes, id1, mem) && GoodNode(nodes, id, mem);
    SameIdIffSame(nodes, mem, e1, id1, e, id);
    EqualSymmetric(e1, e);
    if id1 == id {
      var k :| k in before && Same(before[k].expr, e);
      assert GoodNode(nodes, k, mem);
      SameImpliesComparable(before[k].expr, e, mem);
    }
  }

  lemma OneMoreToldApart(before: Nodes, nodes: Nodes, buckets: Buckets, nextId: nat, number: int -> Hash, mem: Memory,
                         returned: Calls, es: seq<Expr>, ids: seq<nat>, e: Expr, id: nat)
    requires Consistent(nodes, buckets, nextId, number, mem, returned) && Extends(before, nodes)
    requires ToldApart(es, ids) && InMemory(e, mem) && Represents(nodes, id, e)
    requires forall i | 0 <= i < |es| :: Represents(before, ids[i], es[i])
    requires forall i | 0 <= i < |es| :: InMemory(es[i], mem)
    requires id in before <==> exists k :: k in before && Same(before[k].expr, e)
    ensures ToldApart(es + [e], ids + [id])
  {
    hide Indexed, Counted, Unshareable, GoodNode, Represents, Extends, Same, InMemory;
    forall i | 0 <= i < |es| ensures (ids[i] == id <==> Same(es[i], e)) && (id == ids[i] <==> Same(e, es[i])) {
      NewIdTellsApart(before, nodes, mem, es[i], ids[i], e, id);
    }
  }

  lemma EachReadsBack(nodes: Nodes, nextId: nat, mem: Memory, es: seq<Expr>, ids: seq<nat>)
    requires Stored(nodes, nextId, mem) && |ids| == |es|
    requires forall i | 0 <= i < |es| :: Represents(nodes, ids[i], es[i]) && InMemory(es[i], mem)
    ensures forall i | 0 <= i < |es| ::
      Represents(nodes, ids[i], es[i]) && (StructuralEqual(Unfold(nodes, ids[i], mem), es[i]) <==> Comparable(es[i]))
  {
    hide StructuralEqual, ShapeOf, InMemory, Comparable, Unfold;
    forall i | 0 <= i < |es|
      ensures Represents(nodes, ids[i], es[i]) &&
              (StructuralEqual(Unfold(nodes, ids[i], mem), es[i]) <==> Comparable(es[i]))
    {
      UnfoldGivesBack(nodes, mem, ids[i], es[i]);
    }
  }

  /** Interns any expressions one after another into a new graph. Whatever their
      order and their hashes: equal ids mean equal type and structure, reading back
      loses nothing, and every use is accounted for. */
  method InternAll(es: seq<Expr>, number: int -> Hash, ghost mem: Memory)
    returns (nodes: Nodes, ids: seq<nat>, ghost nextId: nat)
    requires forall i | 0 <= i < |es| :: InMemory(es[i], mem)
    ensures Stored(nodes, nextId, mem) && Unshareable(nodes) && ToldApart(es, ids)
    ensures forall i | 0 <= i < |es| ::
      Represents(nodes, ids[i], es[i]) && (StructuralEqual(Unfold(nodes, ids[i], mem), es[i]) <==> Comparable(es[i]))
    ensures forall k | k in nodes :: nodes[k].useCount == 2 * Slots(nodes, nextId, k) + Occurrences(ids, k)
  {
    hide StructuralEqual, ShapeOf, StructuralHash, InMemory, Same, Comparable, GoodNode, Unfold, CallsOf, Slots,
         Occurrences, ToldApart;
    var builder := new DagBuilder(number, mem);
    NothingCounted();
    ids := builder.InternEach(es);
    nodes, nextId := builder.nodes, builder.nextId;
    EachReadsBack(nodes, nextId, mem, es, ids);
  }

  lemma NothingCounted()
    ensures forall k :: Occurrences([], k) == CallsOf(map[], k) == 0
  {
  }
}
