/** The dependency analysis: who depends on whom, whether that is cyclic, and
    in which order the expressions come out. Expressions are named by hash. */
module Dependencies {
  import opened Graphs

  datatype Info = Info(dependsOn: set<nat>, dependedBy: set<nat>, hasDataDependency: bool)

  function Out(graph: map<nat, Info>, a: nat): set<nat>
  {
    if a in graph then graph[a].dependsOn else {}
  }

  function In(graph: map<nat, Info>, b: nat): set<nat>
  {
    if b in graph then graph[b].dependedBy else {}
  }

  /** The two sides of every dependency agree, and both ends have an entry. */
  ghost predicate Mutual(graph: map<nat, Info>)
  {
    && (forall a, b :: b in Out(graph, a) <==> a in In(graph, b))
    && (forall a, b | b in Out(graph, a) :: b in graph)
    && (forall a | a in graph :: graph[a].hasDataDependency <==> Out(graph, a) != {})
  }

  /** The map's subscript: a missing entry comes into being empty. */
  function Entry(g: map<nat, Info>, a: nat): Info
  {
    if a in g then g[a] else Info({}, {}, false)
  }

  function WithOut(i: Info, b: nat): Info { i.(dependsOn := i.dependsOn + {b}) }

  function WithIn(i: Info, a: nat): Info { i.(dependedBy := i.dependedBy + {a}) }

  function WithFlag(i: Info): Info { i.(hasDataDependency := true) }

  function Linked(g: map<nat, Info>, a: nat, b: nat): map<nat, Info>
  {
    var g1 := g[a := WithOut(Entry(g, a), b)];
    var g2 := g1[b := WithIn(Entry(g1, b), a)];
    g2[a := WithFlag(Entry(g2, a))]
  }

  lemma LinkedEdges(g: map<nat, Info>, a: nat, b: nat, x: nat)
    ensures Linked(g, a, b).Keys == g.Keys + {a, b}
    ensures Out(Linked(g, a, b), x) == Out(g, x) + if x == a then {b} else {}
    ensures In(Linked(g, a, b), x) == In(g, x) + if x == b then {a} else {}
    ensures Entry(Linked(g, a, b), x).hasDataDependency <==> Entry(g, x).hasDataDependency || x == a
  {
  }

  lemma LinkedMutual(g: map<nat, Info>, a: nat, b: nat)
    requires Mutual(g)
    ensures Mutual(Linked(g, a, b))
  {
    var h := Linked(g, a, b);
    forall x, y ensures y in Out(h, x) <==> x in In(h, y) { LinkedEdges(g, a, b, x); LinkedEdges(g, a, b, y); }
    forall x, y | y in Out(h, x) ensures y in h { LinkedEdges(g, a, b, x); }
    forall x | x in h ensures h[x].hasDataDependency <==> Out(h, x) != {} { LinkedEdges(g, a, b, x); }
  }

  class DependencyAnalyzer {
    var graph: map<nat, Info>
    var topologicalOrder: seq<nat>

    ghost predicate Valid()
      reads this
    {
      Mutual(graph)
    }

    function Depends(): Graph
      reads this
    {
      map a | a in graph :: graph[a].dependsOn
    }

    constructor ()
      ensures Valid() && graph == map[]
    {
      graph := map[];
      topologicalOrder := [];
    }

    method EnsureEntry(hash: nat)
      requires Valid()
      modifies this`graph
      ensures Valid()
      ensures graph.Keys == old(graph.Keys) + {hash}
      ensures forall a :: Out(graph, a) == old(Out(graph, a)) && In(graph, a) == old(In(graph, a))
    {
      graph := graph[hash := Entry(graph, hash)];
      forall a ensures Out(graph, a) == old(Out(graph, a)) && In(graph, a) == old(In(graph, a)) {}
    }

    method AddDependency(dependent: nat, dependency: nat)
      requires Valid()
      modifies this`graph
      ensures Valid()
      ensures graph.Keys == old(graph.Keys) + {dependent, dependency}
      ensures forall a :: Out(graph, a) == old(Out(graph, a)) + if a == dependent then {dependency} else {}
    {
      graph := graph[dependent := WithOut(Entry(graph, dependent), dependency)];
      graph := graph[dependency := WithIn(Entry(graph, dependency), dependent)];
      graph := graph[dependent := WithFlag(Entry(graph, dependent))];
      LinkedMutual(old(graph), dependent, dependency);
      forall a ensures Out(graph, a) == old(Out(graph, a)) + if a == dependent then {dependency} else {} {
        LinkedEdges(old(graph), dependent, dependency, a);
      }
      LinkedEdges(old(graph), dependent, dependency, dependent);
    }

    /** The depth-first visit. `temp` holds the expressions whose visit is under
        way; the sets are passed by reference in the original and handed back here. */
    method TopologicalVisit(node: nat, visited: set<nat>, temp: set<nat>)
      returns (ok: bool, visited': set<nat>, temp': set<nat>)
      requires Valid()
      requires Consistent(visited) && visited !! temp
      requires forall t | t in temp :: ReachesAgain(Depends(), t, node)
      modifies this`topologicalOrder
      ensures !ok ==> HasDirectedCycle(Depends())
      ensures ok ==> Consistent(visited') && visited' !! temp && temp' == temp
      ensures ok ==> visited <= visited' && node in visited' && visited' <= visited + graph.Keys + {node}
      decreases graph.Keys - temp, 1
    {
      if node in temp {
        return false, visited, temp;
      }
      if node in visited {
        return true, visited, temp;
      }
      temp' := temp + {node};
      visited' := visited;
      if node in graph {
        assert Depends()[node] == graph[node].dependsOn;
        var todo := graph[node].dependsOn;
        while todo != {}
          invariant todo <= graph[node].dependsOn
          invariant Consistent(visited') && visited' !! temp' && temp' == temp + {node}
          invariant visited <= visited' && visited' <= visited + graph.Keys
          invariant graph[node].dependsOn - todo <= visited'
          decreases todo
        {
          var dep :| dep in todo;
          todo := todo - {dep};
          forall t | t in temp' ensures ReachesAgain(Depends(), t, dep) {
            if t == node { ReachesSelf(Depends(), node); } else { AgainIsReaching(Depends(), t, node); }
            ExtendPath(Depends(), t, node, dep);
          }
          ok, visited', temp' := TopologicalVisit(dep, visited', temp');
          if !ok {
            return false, visited', temp';
          }
        }
      }
      temp' := temp' - {node};
      assert forall y | Edge(Depends(), node, y) :: y in Elements(topologicalOrder);
      TargetsFirstAppend(Depends(), topologicalOrder, node, graph.Keys);
      visited' := visited' + {node};
      topologicalOrder := topologicalOrder + [node];
      ok := true;
    }

    /** The order so far lists the visited expressions once each, dependencies first. */
    ghost predicate Consistent(visited: set<nat>)
      reads this
    {
      && NoDuplicates(topologicalOrder) && Elements(topologicalOrder) == visited
      && TargetsFirst(Depends(), topologicalOrder, graph.Keys)
    }

    /** Whatever order the map is iterated in: empty on a cycle, otherwise every
        expression once and each one before everything it depends on. */
    method GetSafeExecutionOrder() returns (order: seq<nat>)
      requires Valid()
      modifies this`topologicalOrder
      ensures HasDirectedCycle(Depends()) ==> order == []
      ensures !HasDirectedCycle(Depends()) ==>
        NoDuplicates(order) && Elements(order) == graph.Keys && DependentsFirst(Depends(), order)
    {
      topologicalOrder := [];
      var visited, temp := {}, {};
      var todo := graph.Keys;
      while todo != {}
        invariant todo <= graph.Keys && visited <= graph.Keys && temp == {}
        invariant Consistent(visited) && graph.Keys - todo <= visited
        decreases todo
      {
        var hash :| hash in todo;
        todo := todo - {hash};
        if hash !in visited {
          var ok;
          ok, visited, temp := TopologicalVisit(hash, visited, temp);
          if !ok {
            return [];
          }
        }
      }
      assert visited == graph.Keys;
      assert forall x, y | Edge(Depends(), x, y) :: y in Elements(topologicalOrder);
      TargetsFirstAcyclic(Depends(), topologicalOrder);
      ReversedOrder(Depends(), topologicalOrder);
      topologicalOrder := Reverse(topologicalOrder);
      order := topologicalOrder;
    }

    method HasCycle() returns (r: bool)
      requires Valid()
      modifies this`topologicalOrder
      ensures r <==> HasDirectedCycle(Depends())
    {
      var order := GetSafeExecutionOrder();
      r := order == [] && graph != map[];
      if graph == map[] {
        TargetsFirstAcyclic(Depends(), []);
      } else {
        var a :| a in graph;
        assert order == [] ==> a !in Elements(order);
      }
    }
  }

  function Reverse(s: seq<nat>): (r: seq<nat>)
    ensures |r| == |s| && forall i | 0 <= i < |s| :: r[i] == s[|s| - 1 - i]
  {
    if s == [] then [] else Reverse(s[1..]) + [s[0]]
  }

  /** Along `s`, everything an entry depends on comes later. */
  ghost predicate DependentsFirst(g: Graph, s: seq<nat>)
  {
    forall i, j | 0 <= i < |s| && 0 <= j < |s| && Edge(g, s[i], s[j]) :: i < j
  }

  ghost predicate DependenciesFirst(g: Graph, s: seq<nat>)
  {
    forall i, j | 0 <= i < |s| && 0 <= j < |s| && Edge(g, s[i], s[j]) :: j < i
  }

  lemma ReversedOrder(g: Graph, s: seq<nat>)
    requires NoDuplicates(s) && TargetsFirst(g, s, Elements(s))
    ensures DependenciesFirst(g, s)
    ensures NoDuplicates(Reverse(s)) && DependentsFirst(g, Reverse(s))
    ensures Elements(Reverse(s)) == Elements(s)
  {
    var r := Reverse(s);
    forall i, j | 0 <= i < |s| && 0 <= j < |s| && Edge(g, s[i], s[j]) ensures j < i {
      assert s[j] in Elements(s) && s[j] in s[..i];
    }
    forall x ensures x in Elements(s) <==> x in Elements(r) {
      if x in s { var i :| 0 <= i < |s| && s[i] == x; assert r[|s| - 1 - i] == x; }
      if x in r { var i :| 0 <= i < |s| && r[i] == x; assert s[|s| - 1 - i] == x; }
    }
  }

  /** The result is never a dependencies-first schedule unless nothing depends on
      anything: the order runs the other way round. */
  lemma DependenciesFirstOnlyWithoutEdges(g: Graph, order: seq<nat>)
    requires Elements(order) == g.Keys && DependentsFirst(g, order)
    requires forall a, b | Edge(g, a, b) :: b in g
    ensures DependenciesFirst(g, order) <==> (forall a, b :: !Edge(g, a, b))
  {
    if a: nat, b: nat :| Edge(g, a, b) {
      assert a in Elements(order) && b in Elements(order);
      var i :| 0 <= i < |order| && order[i] == a;
      var j :| 0 <= j < |order| && order[j] == b;
      assert Edge(g, order[i], order[j]);
    }
  }
}
