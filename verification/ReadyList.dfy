/** The ready list that both topological sorts keep: nodes whose indegree has reached
    zero and that have not been listed yet. The sorts differ in how they lower indegrees
    and in when they sort again; that the ready nodes and the listed nodes together are
    exactly the nodes of indegree zero, each once, is common to them and kept here, with
    what follows from it: listing the least ready node extends the canonical order, and a
    node that is left over when nothing is ready means a cycle. */
module ReadyList {
  import opened Digraph
  import opened Ordering
  import opened TopologicalOrder

  /** Which nodes have been released: exactly those whose indegree has reached zero. */
  ghost predicate Released(indegree: map<Node, int>, ordered: seq<Node>, ready: seq<Node>) {
    && Distinct(ordered + ready)
    && (forall x :: x in ordered + ready ==> x in indegree)
    && (forall x :: x in indegree ==> (indegree[x] <= 0 <==> x in ordered + ready))
  }

  /** The initial ready list: every mission without dependencies, in key order. */
  method InitialReady(keys: seq<Node>, indegree: map<Node, int>) returns (ready: seq<Node>)
    requires Distinct(keys) && indegree.Keys == Elements(keys)
    requires forall x :: x in indegree ==> indegree[x] >= 0
    ensures Released(indegree, [], ready)
  {
    ready := [];
    for k := 0 to |keys|
      invariant Distinct(ready)
      invariant forall x :: x in ready <==> x in keys[..k] && indegree[x] == 0
    {
      if indegree[keys[k]] == 0 {
        ready := ready + [keys[k]];
      }
    }
    assert [] + ready == ready;
  }

  lemma ListedOrReady(ordered: seq<Node>, ready: seq<Node>)
    requires Distinct(ordered + ready)
    ensures forall i, j :: 0 <= i < |ordered| && 0 <= j < |ready| ==> ordered[i] != ready[j]
  {
    forall i, j | 0 <= i < |ordered| && 0 <= j < |ready| ensures ordered[i] != ready[j] {
      assert (ordered + ready)[i] != (ordered + ready)[|ordered| + j];
    }
  }

  lemma MoveHead(indegree: map<Node, int>, ordered: seq<Node>, ready: seq<Node>)
    requires Released(indegree, ordered, ready) && ready != []
    ensures Released(indegree, ordered + [ready[0]], ready[1..])
    ensures ready[0] !in ordered
  {
    assert (ordered + [ready[0]]) + ready[1..] == ordered + ready;
    assert (ordered + ready)[|ordered|] == ready[0];
    forall k | 0 <= k < |ordered| ensures ordered[k] != ready[0] {
      assert (ordered + ready)[k] == ordered[k];
    }
  }

  /** Sorting the ready list again changes nothing but its order. */
  lemma SortAgain(less: (Node, Node) -> bool, indegree: map<Node, int>, ordered: seq<Node>, ready: seq<Node>)
    requires Released(indegree, ordered, ready) && IsKeyOrder(less, Elements(ready))
    ensures Released(indegree, ordered, SortBy(less, ready)) && SortedBy(less, SortBy(less, ready))
  {
    var sorted := SortBy(less, ready);
    MultisetElements(ready, sorted);
    assert multiset(ordered + ready) == multiset(ordered + sorted);
    DistinctPermutation(ordered + ready, ordered + sorted);
    SortBySorted(less, ready);
  }

  /** The indegrees that have reached zero are those of the nodes that wait for nothing. */
  ghost predicate ZeroMeansSatisfied(g: Graph, indegree: map<Node, int>, ordered: seq<Node>) {
    indegree.Keys == g.Keys && forall n :: n in g ==> (indegree[n] <= 0 <==> forall d :: d in g[n] ==> d in ordered)
  }

  /** A node is in the ready list exactly when it waits for nothing and is not yet listed. */
  lemma ReadyMeansSatisfied(g: Graph, indegree: map<Node, int>, ordered: seq<Node>, ready: seq<Node>, n: Node)
    requires Released(indegree, ordered, ready) && ZeroMeansSatisfied(g, indegree, ordered)
    ensures n in ready <==> n !in ordered && Satisfied(g, ordered, n)
  {
    assert n in ordered + ready <==> n in ordered || n in ready;
    ListedOrReady(ordered, ready);
  }

  /** Listing the head of the sorted ready list extends the canonical order. */
  lemma EmitHead(g: Graph, less: (Node, Node) -> bool, indegree: map<Node, int>, ordered: seq<Node>, ready: seq<Node>)
    requires Released(indegree, ordered, ready) && ZeroMeansSatisfied(g, indegree, ordered) && ready != []
    requires Respects(g, ordered) && LeastFirst(g, less, ordered)
    requires forall j :: 0 < j < |ready| && ready[j] != ready[0] ==> less(ready[0], ready[j])
    ensures Respects(g, ordered + [ready[0]]) && LeastFirst(g, less, ordered + [ready[0]])
  {
    ReadyMeansSatisfied(g, indegree, ordered, ready, ready[0]);
    forall n | n !in ordered && n != ready[0] && Satisfied(g, ordered, n) ensures less(ready[0], n) {
      ReadyMeansSatisfied(g, indegree, ordered, ready, n);
      var j :| 0 <= j < |ready| && ready[j] == n;
    }
    ExtendOrder(g, less, ordered, ready[0]);
  }

  lemma SameSizeSubset(a: set<Node>, b: set<Node>)
    requires a <= b && |a| >= |b|
    ensures a == b
  {
    assert b == a + (b - a);
  }

  lemma MissingElement(all: set<Node>, some: set<Node>) returns (n: Node)
    requires |some| < |all|
    ensures n in all && n !in some
  {
    if all <= some {
      SubsetSize(all, some);
    }
    n :| n in all && n !in some;
  }

  /** With nothing ready and a node left over there is a cycle. */
  lemma LeftOverMeansCyclic(g: Graph, indegree: map<Node, int>, ordered: seq<Node>)
    requires Released(indegree, ordered, []) && ZeroMeansSatisfied(g, indegree, ordered) && DependenciesKnown(g)
    requires |ordered| < |g.Keys|
    ensures Cyclic(g)
  {
    assert ordered + [] == ordered;
    DistinctSize(ordered);
    var first := MissingElement(g.Keys, Elements(ordered));
    forall n | n in g && n !in ordered ensures !Satisfied(g, ordered, n) {
      ReadyMeansSatisfied(g, indegree, ordered, [], n);
    }
    StuckMeansCyclic(g, ordered, first);
  }
}
