/** Finite directed graphs and cycles. */
module Digraph {
  // The dependency tables of the planner, the mission builder and the supervisor: a node
  // maps to the list of nodes it depends on. A listed node need not be a key; it then has
  // no outgoing edges.

  type Node = string
  type Graph = map<Node, seq<Node>>

  predicate Edge(g: Graph, u: Node, v: Node) {
    u in g && v in g[u]
  }

  ghost predicate IsPath(g: Graph, p: seq<Node>) {
    forall i, j :: 0 <= i && j == i + 1 && j < |p| ==> Edge(g, p[i], p[j])
  }

  /** `p` leads from `u` to `v` along at least one edge. */
  ghost predicate Leads(g: Graph, p: seq<Node>, u: Node, v: Node) {
    2 <= |p| && IsPath(g, p) && p[0] == u && p[|p| - 1] == v
  }

  ghost predicate Reaches(g: Graph, u: Node, v: Node) {
    exists p :: Leads(g, p, u, v)
  }

  /** A graph is cyclic when a nonempty path leads from some node back to itself. */
  ghost predicate Cyclic(g: Graph) {
    exists n :: Reaches(g, n, n)
  }

  predicate Distinct<T(==)>(s: seq<T>) {
    forall i, j :: 0 <= i < j < |s| ==> s[i] != s[j]
  }

  function Elements<T>(s: seq<T>): set<T> {
    set x | x in s
  }

  /** Every node the graph mentions, as a key or as a listed dependency. */
  function Universe(g: Graph): set<Node> {
    g.Keys + set k, i | k in g && 0 <= i < |g[k]| :: g[k][i]
  }

  /** The graph of a list of keys, each with its dependencies; a later key replaces an equal
      earlier one. */
  function GraphOf(keys: seq<Node>, deps: seq<seq<Node>>): Graph
    requires |keys| == |deps|
  {
    if keys == [] then map[]
    else
      var n := |keys| - 1;
      GraphOf(keys[..n], deps[..n])[keys[n] := deps[n]]
  }

  ghost predicate Paired(keys: seq<Node>, deps: seq<seq<Node>>, n: Node, ds: seq<Node>)
    requires |keys| == |deps|
  {
    exists i :: 0 <= i < |keys| && keys[i] == n && deps[i] == ds
  }

  lemma {:induction false} GraphOfFacts(keys: seq<Node>, deps: seq<seq<Node>>)
    requires |keys| == |deps|
    ensures forall n :: n in GraphOf(keys, deps) <==> n in keys
    ensures forall n :: n in GraphOf(keys, deps) ==> Paired(keys, deps, n, GraphOf(keys, deps)[n])
  {
    if keys != [] {
      var m := |keys| - 1;
      GraphOfFacts(keys[..m], deps[..m]);
      assert keys == keys[..m] + [keys[m]];
      forall n | n in GraphOf(keys, deps) ensures Paired(keys, deps, n, GraphOf(keys, deps)[n]) {
        if n == keys[m] {
          assert deps[m] == GraphOf(keys, deps)[n];
        } else {
          var ds := GraphOf(keys[..m], deps[..m])[n];
          assert Paired(keys[..m], deps[..m], n, ds);
          var i :| 0 <= i < m && keys[..m][i] == n && deps[..m][i] == ds;
          assert keys[i] == n && deps[i] == ds;
        }
      }
    }
  }

  lemma GraphOfEntry(keys: seq<Node>, deps: seq<seq<Node>>, i: nat)
    requires |keys| == |deps| && Distinct(keys) && i < |keys|
    ensures keys[i] in GraphOf(keys, deps) && GraphOf(keys, deps)[keys[i]] == deps[i]
  {
    GraphOfFacts(keys, deps);
    assert keys[i] in keys;
    assert Paired(keys, deps, keys[i], GraphOf(keys, deps)[keys[i]]);
  }

  lemma GraphOfSnoc(keys: seq<Node>, deps: seq<seq<Node>>, n: Node, ds: seq<Node>)
    requires |keys| == |deps|
    ensures GraphOf(keys + [n], deps + [ds]) == GraphOf(keys, deps)[n := ds]
  {
    assert (keys + [n])[..|keys|] == keys && (deps + [ds])[..|deps|] == deps;
  }

  lemma EdgeReaches(g: Graph, u: Node, v: Node)
    requires Edge(g, u, v)
    ensures Reaches(g, u, v)
    ensures v in Universe(g)
  {
    assert Leads(g, [u, v], u, v);
  }

  lemma ReachesThenEdge(g: Graph, u: Node, v: Node, w: Node)
    requires Reaches(g, u, v) && Edge(g, v, w)
    ensures Reaches(g, u, w)
  {
    var p :| Leads(g, p, u, v);
    assert Leads(g, p + [w], u, w);
  }

  /** A set closed under edges is never left by a path that starts inside it. */
  lemma ClosedUnderPaths(g: Graph, closed: set<Node>, p: seq<Node>)
    requires forall u, v :: u in closed && Edge(g, u, v) ==> v in closed
    requires IsPath(g, p) && p != [] && p[0] in closed
    ensures forall i :: 0 <= i < |p| ==> p[i] in closed
  {
    for k := 1 to |p|
      invariant forall i :: 0 <= i < k ==> p[i] in closed
    {
      assert Edge(g, p[k - 1], p[k]);
    }
  }

  lemma SubsetSize<T>(a: set<T>, b: set<T>)
    requires a <= b
    ensures |a| <= |b|
  {
    assert b == a + (b - a);
  }

  lemma {:induction false} DistinctSize<T>(s: seq<T>)
    ensures |Elements(s)| <= |s|
    ensures Distinct(s) <==> |Elements(s)| == |s|
  {
    if s != [] {
      var last, rest := s[|s| - 1], s[..|s| - 1];
      DistinctSize(rest);
      assert Elements(s) == Elements(rest) + {last};
      if last in rest {
        assert Elements(s) == Elements(rest);
      }
      if Distinct(rest) && last !in rest {
        forall i, j | 0 <= i < j < |s| ensures s[i] != s[j] {
          assert s[i] == rest[i];
        }
      }
    }
  }

  lemma SliceLeads(g: Graph, p: seq<Node>, i: nat, j: nat)
    requires IsPath(g, p) && i < j < |p|
    ensures Reaches(g, p[i], p[j])
  {
    var q := p[i..j + 1];
    forall a, b | 0 <= a && b == a + 1 && b < |q| ensures Edge(g, q[a], q[b]) {
      assert Edge(g, p[i + a], p[i + b]);
    }
    assert Leads(g, q, p[i], p[j]);
  }

  lemma RepeatsIn(p: seq<Node>, nodes: set<Node>) returns (i: nat, j: nat)
    requires forall k :: 0 <= k < |p| ==> p[k] in nodes
    requires |p| > |nodes|
    ensures i < j < |p| && p[i] == p[j]
  {
    DistinctSize(p);
    SubsetSize(Elements(p), nodes);
    i, j :| 0 <= i < j < |p| && p[i] == p[j];
  }

  /** `u` depends on some node of `nodes`. */
  ghost predicate DependsInto(g: Graph, nodes: set<Node>, u: Node) {
    exists v :: v in nodes && Edge(g, u, v)
  }

  lemma {:induction false} WalkInside(g: Graph, nodes: set<Node>, start: Node, n: nat) returns (p: seq<Node>)
    requires start in nodes
    requires forall u :: u in nodes ==> DependsInto(g, nodes, u)
    ensures |p| == n + 1 && IsPath(g, p)
    ensures forall k :: 0 <= k < |p| ==> p[k] in nodes
  {
    if n == 0 {
      p := [start];
    } else {
      p := WalkInside(g, nodes, start, n - 1);
      assert DependsInto(g, nodes, p[n - 1]);
      var v :| v in nodes && Edge(g, p[n - 1], v);
      p := p + [v];
    }
  }

  /** If every node of a nonempty finite set has a dependency inside the set, the
      graph has a cycle. */
  lemma NoSourceMeansCyclic(g: Graph, nodes: set<Node>)
    requires nodes != {}
    requires forall u :: u in nodes ==> DependsInto(g, nodes, u)
    ensures Cyclic(g)
  {
    var start :| start in nodes;
    var p := WalkInside(g, nodes, start, |nodes|);
    var i, j := RepeatsIn(p, nodes);
    SliceLeads(g, p, i, j);
  }
}
