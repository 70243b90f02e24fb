/** Directed graphs over node ids, and paths in them. */
module Graphs {

  type Graph = map<nat, set<nat>>

  predicate Edge(g: Graph, a: nat, b: nat) { a in g && b in g[a] }

  /** A walk along edges; one vertex alone is a walk of no edges. */
  predicate IsPath(g: Graph, p: seq<nat>)
  {
    p != [] && forall i | 0 <= i < |p| - 1 :: Edge(g, p[i], p[i + 1])
  }

  ghost predicate Reaches(g: Graph, a: nat, b: nat)
  {
    exists p: seq<nat> :: IsPath(g, p) && p[0] == a && p[|p| - 1] == b
  }

  /** Reaches along at least one edge. */
  ghost predicate ReachesAgain(g: Graph, a: nat, b: nat)
  {
    exists p: seq<nat> :: IsPath(g, p) && |p| > 1 && p[0] == a && p[|p| - 1] == b
  }

  ghost predicate HasDirectedCycle(g: Graph)
  {
    exists a: nat :: ReachesAgain(g, a, a)
  }

  lemma ReachesSelf(g: Graph, a: nat)
    ensures Reaches(g, a, a)
  {
    assert IsPath(g, [a]) && [a][0] == a && [a][|[a]| - 1] == a;
  }

  lemma ExtendPath(g: Graph, a: nat, b: nat, c: nat)
    requires Reaches(g, a, b) && Edge(g, b, c)
    ensures ReachesAgain(g, a, c) && Reaches(g, a, c)
  {
    var p :| IsPath(g, p) && p[0] == a && p[|p| - 1] == b;
    var q := p + [c];
    assert IsPath(g, q) && |q| > 1 && q[0] == a && q[|q| - 1] == c;
  }

  lemma AgainIsReaching(g: Graph, a: nat, b: nat)
    requires ReachesAgain(g, a, b)
    ensures Reaches(g, a, b)
  {
    var p :| IsPath(g, p) && |p| > 1 && p[0] == a && p[|p| - 1] == b;
  }

  lemma PrependEdge(g: Graph, a: nat, b: nat, c: nat)
    requires Edge(g, a, b) && Reaches(g, b, c)
    ensures Reaches(g, a, c)
  {
    var p :| IsPath(g, p) && p[0] == b && p[|p| - 1] == c;
    var q := [a] + p;
    assert forall i | 0 <= i < |q| - 1 :: Edge(g, q[i], q[i + 1]) by {
      forall i | 0 <= i < |q| - 1 ensures Edge(g, q[i], q[i + 1]) {
        if i > 0 { assert Edge(g, p[i - 1], p[i]); }
      }
    }
    assert IsPath(g, q) && q[0] == a && q[|q| - 1] == c;
  }

  /** A set closed under edges keeps every walk that starts in it. */
  lemma {:induction false} ClosedKeepsPaths(g: Graph, s: set<nat>, p: seq<nat>, n: nat)
    requires forall x, y | x in s && Edge(g, x, y) :: y in s
    requires IsPath(g, p) && p[0] in s && n < |p|
    ensures p[n] in s
  {
    if n > 0 {
      ClosedKeepsPaths(g, s, p, n - 1);
      assert Edge(g, p[n - 1], p[n]);
    }
  }

  predicate NoDuplicates(s: seq<nat>)
  {
    forall i, j | 0 <= i < j < |s| :: s[i] != s[j]
  }

  function Elements(s: seq<nat>): set<nat> { set x | x in s }

  /** Along `s`, whatever an entry has an edge to (within `among`) comes earlier. */
  ghost predicate TargetsFirst(g: Graph, s: seq<nat>, among: set<nat>)
  {
    forall k, y | 0 <= k < |s| && Edge(g, s[k], y) && y in among :: y in s[..k]
  }

  lemma TargetsFirstAppend(g: Graph, s: seq<nat>, x: nat, among: set<nat>)
    requires TargetsFirst(g, s, among)
    requires forall y | Edge(g, x, y) && y in among :: y in s
    ensures TargetsFirst(g, s + [x], among)
  {
    forall k, y | 0 <= k < |s + [x]| && Edge(g, (s + [x])[k], y) && y in among ensures y in (s + [x])[..k] {
      if k < |s| { assert (s + [x])[..k] == s[..k]; } else { assert (s + [x])[..k] == s; }
    }
  }

  /** If all targets come first, no walk of one edge or more returns to its start. */
  lemma {:induction false} TargetsFirstAcyclic(g: Graph, s: seq<nat>)
    requires NoDuplicates(s) && g.Keys <= Elements(s)
    requires forall x, y | Edge(g, x, y) :: y in s
    requires TargetsFirst(g, s, Elements(s))
    ensures !HasDirectedCycle(g)
  {
    if HasDirectedCycle(g) {
      var a: nat :| ReachesAgain(g, a, a);
      var p :| IsPath(g, p) && |p| > 1 && p[0] == a && p[|p| - 1] == a;
      assert Edge(g, p[0], p[1]);
      var k :| 0 <= k < |s| && s[k] == a;
      WalkDescends(g, s, p, k, |p| - 1);
    }
  }

  lemma {:induction false} WalkDescends(g: Graph, s: seq<nat>, p: seq<nat>, k: nat, n: nat)
    requires NoDuplicates(s) && TargetsFirst(g, s, Elements(s))
    requires forall x, y | Edge(g, x, y) :: y in s
    requires IsPath(g, p) && k < |s| && s[k] == p[0] && 0 < n < |p|
    ensures p[n] in s[..k]
  {
    assert Edge(g, p[n - 1], p[n]) && p[n] in Elements(s);
    if n == 1 {
      assert Edge(g, s[k], p[n]);
    } else {
      WalkDescends(g, s, p, k, n - 1);
      var j :| 0 <= j < k && s[j] == p[n - 1];
      assert Edge(g, s[j], p[n]) && p[n] in s[..j];
    }
  }
}
