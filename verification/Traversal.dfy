/** Building a finished graph from one expression, its use statistics, and its
    topological order. */
module Traversal {
  import opened Exprs
  import opened Graphs
  import opened Interning

  // ----- building -----

  /** The ids among `ids` that are used more than once. */
  function SharedAmong(nodes: Nodes, ids: set<nat>): set<nat>
    requires ids <= nodes.Keys
  {
    set k | k in ids && nodes[k].useCount > 1
  }

  lemma OneMoreShared(nodes: Nodes, ids: set<nat>, id: nat)
    requires ids + {id} <= nodes.Keys && id !in ids
    ensures |SharedAmong(nodes, ids + {id})| == |SharedAmong(nodes, ids)| + if nodes[id].useCount > 1 then 1 else 0
  {
    if nodes[id].useCount > 1 {
      assert SharedAmong(nodes, ids + {id}) == SharedAmong(nodes, ids) + {id};
    } else {
      assert SharedAmong(nodes, ids + {id}) == SharedAmong(nodes, ids);
    }
  }

  method SharedNodeCount(nodes: Nodes) returns (count: nat)
    ensures count == |SharedAmong(nodes, nodes.Keys)|
  {
    count := 0;
    var todo := nodes.Keys;
    while todo != {}
      invariant todo <= nodes.Keys && count == |SharedAmong(nodes, nodes.Keys - todo)|
      decreases todo
    {
      var id :| id in todo;
      OneMoreShared(nodes, nodes.Keys - todo, id);
      assert nodes.Keys - (todo - {id}) == nodes.Keys - todo + {id};
      todo := todo - {id};
      if nodes[id].useCount > 1 { count := count + 1; }
    }
    assert nodes.Keys - todo == nodes.Keys;
  }

  /** After one call only the root is used once; so the count of "shared" nodes is
      always one less than the count of nodes, whatever is really shared. */
  method BuildDag(e: Expr, number: int -> Hash, ghost mem: Memory)
    returns (nodes: Nodes, root: nat, ghost nextId: nat)
    requires InMemory(e, mem)
    ensures Stored(nodes, nextId, mem) && Unshareable(nodes)
    ensures Represents(nodes, root, e) && nodes[root].expr == e
    ensures forall k | k in nodes && k != root :: nodes[k].useCount == 2 * Slots(nodes, nextId, k) > 0
    ensures |SharedAmong(nodes, nodes.Keys)| == |nodes| - 1
         == |HeldTwice(nodes, nextId)| + |HeldOnce(nodes, nextId)|
  {
    var builder := new DagBuilder(number, mem);
    root := builder.Intern(e);
    nodes, nextId := builder.nodes, builder.nextId;
    OnlyTheRootIsUsedOnce(nodes, nextId, builder.returned, root, mem);
    SharingOvercounted(nodes, nextId, builder.returned, root, mem);
  }

  lemma OnlyTheRootIsUsedOnce(nodes: Nodes, nextId: nat, returned: Calls, root: nat, mem: Memory)
    requires Stored(nodes, nextId, mem) && Counted(nodes, nextId, returned)
    requires root in nodes && nextId == root + 1
    requires forall k :: CallsOf(returned, k) == if k == root then 1 else 0
    ensures forall k | k in nodes && k != root :: nodes[k].useCount == 2 * Slots(nodes, nextId, k) > 0
    ensures |SharedAmong(nodes, nodes.Keys)| == |nodes| - 1
    ensures SharedAmong(nodes, nodes.Keys) == nodes.Keys - {root}
  {
    ChildrenAreOlder(nodes, nextId, mem);
    NoSlotForTheYoungest(nodes, nextId, root);
    assert nodes[root].useCount == 2 * Slots(nodes, nextId, root) + CallsOf(returned, root);
    forall k | k in nodes && k != root ensures nodes[k].useCount == 2 * Slots(nodes, nextId, k) > 0 {
      assert GoodNode(nodes, k, mem);
    }
    assert SharedAmong(nodes, nodes.Keys) == nodes.Keys - {root};
  }

  /** The nodes that are really shared: more than one child slot holds them. */
  function HeldTwice(nodes: Nodes, nextId: nat): set<nat>
  {
    set k | k in nodes && Slots(nodes, nextId, k) > 1
  }

  function HeldOnce(nodes: Nodes, nextId: nat): set<nat>
  {
    set k | k in nodes && Slots(nodes, nextId, k) == 1
  }

  /** The statistic of a fresh graph counts them too high by the nodes that one slot
      holds; so it is right exactly if there is no such node besides the root. */
  lemma SharingOvercounted(nodes: Nodes, nextId: nat, returned: Calls, root: nat, mem: Memory)
    requires Stored(nodes, nextId, mem) && Counted(nodes, nextId, returned)
    requires root in nodes && nextId == root + 1
    requires forall k :: CallsOf(returned, k) == if k == root then 1 else 0
    ensures |SharedAmong(nodes, nodes.Keys)| == |HeldTwice(nodes, nextId)| + |HeldOnce(nodes, nextId)|
    ensures |SharedAmong(nodes, nodes.Keys)| == |HeldTwice(nodes, nextId)| <==>
      forall k | k in nodes && k != root :: Slots(nodes, nextId, k) >= 2
  {
    OnlyTheRootIsUsedOnce(nodes, nextId, returned, root, mem);
    ChildrenAreOlder(nodes, nextId, mem);
    NoSlotForTheYoungest(nodes, nextId, root);
    var shared, twice := SharedAmong(nodes, nodes.Keys), HeldTwice(nodes, nextId);
    var once := HeldOnce(nodes, nextId);
    assert shared == twice + once && twice !! once;
    if |shared| == |twice| {
      assert once == {};
      forall k | k in nodes && k != root ensures Slots(nodes, nextId, k) >= 2 { assert k !in once && k in shared; }
    } else {
      var k :| k in once;
      assert k != root;
    }
  }

  // ----- topological order -----

  function Edges(nodes: Nodes): Graph
  {
    map id | id in nodes :: Elements(nodes[id].children)
  }

  /** Every child has a smaller rank than its parent: the graph is acyclic. */
  ghost predicate Ranked(nodes: Nodes, rank: nat -> nat)
  {
    forall a, b | Edge(Edges(nodes), a, b) :: rank(b) < rank(a)
  }

  /** The depth-first visit; the set and the list are captured by reference in the
      original and handed back here. `open` are the visits still under way. */
  method Visit(nodes: Nodes, id: nat, visited: set<nat>, result: seq<nat>, ghost open: set<nat>, ghost rank: nat -> nat)
    returns (visited': set<nat>, result': seq<nat>)
    requires NoDuplicates(result) && Elements(result) <= nodes.Keys
    requires visited * nodes.Keys == Elements(result) + open * nodes.Keys && Elements(result) !! open
    requires Ranked(nodes, rank) ==> TargetsFirst(Edges(nodes), result, nodes.Keys)
    requires Ranked(nodes, rank) ==> forall o | o in open :: rank(o) > rank(id)
    ensures visited + {id} <= visited' && result <= result' && NoDuplicates(result')
    ensures visited' * nodes.Keys == Elements(result') + open * nodes.Keys && Elements(result') !! open
    ensures Elements(result') <= nodes.Keys
    ensures forall x | x in visited' - visited :: Reaches(Edges(nodes), id, x)
    ensures forall x, y | x in visited' - visited && Edge(Edges(nodes), x, y) :: y in visited'
    ensures Ranked(nodes, rank) ==> TargetsFirst(Edges(nodes), result', nodes.Keys)
    ensures id in nodes && id !in visited ==> result' != [] && result'[|result'| - 1] == id
    decreases nodes.Keys - visited, id in visited
  {
    visited', result' := visited, result;
    if id in visited { return; }
    visited' := visited + {id};
    ReachesSelf(Edges(nodes), id);
    if id !in nodes { return; }
    var children := nodes[id].children;
    assert id !in Elements(result);
    for i := 0 to |children|
      invariant visited + {id} <= visited' && result <= result' && NoDuplicates(result')
      invariant visited' * nodes.Keys == Elements(result') + (open + {id}) * nodes.Keys
      invariant Elements(result') <= nodes.Keys && Elements(result') !! open + {id}
      invariant forall x | x in visited' - visited :: Reaches(Edges(nodes), id, x)
      invariant forall x, y | x in visited' - visited - {id} && Edge(Edges(nodes), x, y) :: y in visited'
      invariant forall j | 0 <= j < i :: children[j] in visited'
      invariant Ranked(nodes, rank) ==> TargetsFirst(Edges(nodes), result', nodes.Keys)
    {
      var c := children[i];
      assert Edge(Edges(nodes), id, c);
      ghost var before := visited';
      visited', result' := Visit(nodes, c, visited', result', open + {id}, rank);
      forall x | x in visited' - before ensures Reaches(Edges(nodes), id, x) {
        PrependEdge(Edges(nodes), id, c, x);
      }
    }
    if Ranked(nodes, rank) {
      forall y | Edge(Edges(nodes), id, y) && y in nodes.Keys ensures y in result' {
        assert rank(y) < rank(id) && y in visited' * nodes.Keys;
        assert y in Elements(result');
      }
      TargetsFirstAppend(Edges(nodes), result', id, nodes.Keys);
    }
    assert id !in Elements(result');
    assert Elements(result' + [id]) == Elements(result') + {id};
    result' := result' + [id];
  }

  /** Every reachable node exactly once, the root last, and on an acyclic graph
      every child before its parents. */
  method TopoOrder(nodes: Nodes, root: nat, ghost rank: nat -> nat) returns (order: seq<nat>)
    ensures NoDuplicates(order)
    ensures forall x :: x in order <==> x in nodes && Reaches(Edges(nodes), root, x)
    ensures root in nodes ==> order != [] && order[|order| - 1] == root
    ensures Ranked(nodes, rank) ==> TargetsFirst(Edges(nodes), order, nodes.Keys)
  {
    var visited;
    visited, order := Visit(nodes, root, {}, [], {}, rank);
    forall x ensures x in order <==> x in nodes && Reaches(Edges(nodes), root, x) {
      if x in nodes && Reaches(Edges(nodes), root, x) {
        var p :| IsPath(Edges(nodes), p) && p[0] == root && p[|p| - 1] == x;
        ClosedKeepsPaths(Edges(nodes), visited, p, |p| - 1);
        assert x in visited * nodes.Keys;
      }
      if x in order { assert x in Elements(order); assert x in visited * nodes.Keys; }
    }
  }

  /** Interned graphs are ranked by their ids, and everything reachable is in them. */
  lemma InternedGraphsAreRanked(nodes: Nodes, nextId: nat, mem: Memory)
    requires Stored(nodes, nextId, mem)
    ensures Ranked(nodes, id => id)
    ensures forall a, b | Edge(Edges(nodes), a, b) :: b in nodes
  {
    ChildrenAreOlder(nodes, nextId, mem);
    forall a, b | Edge(Edges(nodes), a, b) ensures b < a && b in nodes {
      var n := nodes[a];
      assert GoodNode(nodes, a, mem);
      var i :| 0 <= i < |n.children| && n.children[i] == b;
      assert Represents(nodes, n.children[i], n.expr.children[i]);
    }
  }
}
