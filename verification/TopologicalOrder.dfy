/** What it means for a list to be the priority-driven dependency order of a graph,
    and why there is at most one. Both topological sorts are proved against this: every
    listed node follows its dependencies, and at each turn the least of the nodes that
    are ready is taken. A complete such list exists exactly for an acyclic graph whose
    dependencies are all nodes. */
module TopologicalOrder {
  import opened Digraph

  /** All dependencies of `n` are among `done`. */
  predicate Satisfied(g: Graph, done: seq<Node>, n: Node) {
    n in g && forall d :: d in g[n] ==> d in done
  }

  predicate DependenciesKnown(g: Graph) {
    forall n, d :: n in g && d in g[n] ==> d in g
  }

  /** Every listed node comes after all of its dependencies. */
  ghost predicate Respects(g: Graph, order: seq<Node>) {
    forall i :: 0 <= i < |order| ==> Satisfied(g, order[..i], order[i])
  }

  /** Each listed node is below every node that was ready at its turn and still waits. */
  ghost predicate LeastFirst(g: Graph, less: (Node, Node) -> bool, order: seq<Node>) {
    forall i, n :: 0 <= i < |order| && n !in order[..i] && n != order[i] && Satisfied(g, order[..i], n)
      ==> less(order[i], n)
  }

  ghost predicate Canonical(g: Graph, less: (Node, Node) -> bool, order: seq<Node>) {
    && Distinct(order)
    && (forall n :: n in order <==> n in g)
    && Respects(g, order)
    && LeastFirst(g, less, order)
  }

  /** The canonical order of a graph is unique. */
  lemma CanonicalUnique(g: Graph, less: (Node, Node) -> bool, a: seq<Node>, b: seq<Node>)
    requires Canonical(g, less, a) && Canonical(g, less, b)
    requires forall x, y :: x in g && y in g && x != y && less(x, y) ==> !less(y, x)
    ensures a == b
  {
    DistinctSize(a);
    DistinctSize(b);
    assert Elements(a) == g.Keys == Elements(b);
    PrefixAgrees(g, less, a, b, |a|);
    assert a == a[..|a|] && b == b[..|b|];
  }

  lemma {:induction false} PrefixAgrees(g: Graph, less: (Node, Node) -> bool, a: seq<Node>, b: seq<Node>, k: nat)
    requires Canonical(g, less, a) && Canonical(g, less, b)
    requires forall x, y :: x in g && y in g && x != y && less(x, y) ==> !less(y, x)
    requires k <= |a| == |b|
    ensures a[..k] == b[..k]
  {
    if k > 0 {
      PrefixAgrees(g, less, a, b, k - 1);
      NextAgrees(g, less, a, b, k - 1);
      Snoc(a, k);
      Snoc(b, k);
    }
  }

  lemma Snoc(s: seq<Node>, k: nat)
    requires 0 < k <= |s|
    ensures s[..k] == s[..k - 1] + [s[k - 1]]
  {
  }

  lemma NextAgrees(g: Graph, less: (Node, Node) -> bool, a: seq<Node>, b: seq<Node>, i: nat)
    requires Canonical(g, less, a) && Canonical(g, less, b)
    requires forall x, y :: x in g && y in g && x != y && less(x, y) ==> !less(y, x)
    requires i < |a| == |b| && a[..i] == b[..i]
    ensures a[i] == b[i]
  {
    if a[i] != b[i] {
      StillWaiting(g, less, a, i, b, i);
      StillWaiting(g, less, b, i, a, i);
    }
  }

  lemma StillWaiting(g: Graph, less: (Node, Node) -> bool, a: seq<Node>, i: nat, b: seq<Node>, k: nat)
    requires LeastFirst(g, less, a) && Distinct(b) && Respects(g, b)
    requires i < |a| && k < |b| && a[..i] == b[..k] && a[i] != b[k]
    ensures less(a[i], b[k])
  {
    NotBefore(b, k);
    assert Satisfied(g, a[..i], b[k]);
  }

  lemma NotBefore(s: seq<Node>, i: nat)
    requires Distinct(s) && i < |s|
    ensures s[i] !in s[..i]
  {
  }

  /** The position of a listed node. */
  function Position(order: seq<Node>, n: Node): (i: nat)
    requires n in order
    ensures i < |order| && order[i] == n
  {
    if order[0] == n then 0 else 1 + Position(order[1..], n)
  }

  lemma PositionAt(order: seq<Node>, i: nat)
    requires Distinct(order) && i < |order|
    ensures Position(order, order[i]) == i
  {
  }

  /** A complete dependency order exists only for an acyclic graph. */
  lemma CompleteMeansAcyclic(g: Graph, order: seq<Node>)
    requires Respects(g, order) && Distinct(order)
    requires forall n :: n in g ==> n in order
    ensures DependenciesKnown(g) && !Cyclic(g)
  {
    forall n, d | n in g && d in g[n] ensures d in order && d in g && Position(order, d) < Position(order, n) {
      EdgeDescends(g, order, n, d);
    }
    forall n, p | Leads(g, p, n, n) ensures false {
      PathDescends(g, order, p);
    }
  }

  lemma EdgeDescends(g: Graph, order: seq<Node>, n: Node, d: Node)
    requires Respects(g, order) && Distinct(order) && n in order && Edge(g, n, d)
    ensures d in order && d in g && Position(order, d) < Position(order, n)
  {
    var i := Position(order, n);
    assert Satisfied(g, order[..i], order[i]);
    var k :| 0 <= k < i && order[k] == d;
    PositionAt(order, k);
    assert Satisfied(g, order[..k], order[k]);
  }

  lemma PathDescends(g: Graph, order: seq<Node>, p: seq<Node>)
    requires Respects(g, order) && Distinct(order)
    requires forall n :: n in g ==> n in order
    requires IsPath(g, p) && 2 <= |p|
    ensures p[0] in order && p[|p| - 1] in order
    ensures Position(order, p[|p| - 1]) < Position(order, p[0])
  {
    assert Edge(g, p[0], p[1]);
    EdgeDescends(g, order, p[0], p[1]);
    for k := 2 to |p|
      invariant p[k - 1] in order && Position(order, p[k - 1]) < Position(order, p[0])
    {
      assert Edge(g, p[k - 1], p[k]);
      EdgeDescends(g, order, p[k - 1], p[k]);
    }
  }

  /** A node that is neither listed nor ready waits for another unlisted node. */
  lemma StuckMeansCyclic(g: Graph, order: seq<Node>, first: Node)
    requires DependenciesKnown(g)
    requires first in g && first !in order
    requires forall n :: n in g && n !in order ==> !Satisfied(g, order, n)
    ensures Cyclic(g)
  {
    var waiting := g.Keys - Elements(order);
    assert first in waiting;
    forall u | u in waiting ensures DependsInto(g, waiting, u) {
      assert !Satisfied(g, order, u);
      var d :| d in g[u] && d !in order;
      assert d in waiting && Edge(g, u, d);
    }
    NoSourceMeansCyclic(g, waiting);
  }

  /** Listing a least ready node next keeps the order canonical so far. */
  lemma ExtendOrder(g: Graph, less: (Node, Node) -> bool, order: seq<Node>, c: Node)
    requires Respects(g, order) && LeastFirst(g, less, order)
    requires Satisfied(g, order, c)
    requires forall n :: n !in order && n != c && Satisfied(g, order, n) ==> less(c, n)
    ensures Respects(g, order + [c]) && LeastFirst(g, less, order + [c])
  {
    var longer := order + [c];
    forall i | 0 <= i < |longer| ensures Satisfied(g, longer[..i], longer[i]) {
      PrefixOfLonger(order, c, i);
    }
    forall i, n | 0 <= i < |longer| && n !in longer[..i] && n != longer[i] && Satisfied(g, longer[..i], n)
      ensures less(longer[i], n)
    {
      PrefixOfLonger(order, c, i);
    }
  }

  lemma PrefixOfLonger(order: seq<Node>, c: Node, i: nat)
    requires i <= |order|
    ensures i < |order| ==> (order + [c])[..i] == order[..i] && (order + [c])[i] == order[i]
    ensures i == |order| ==> (order + [c])[..i] == order && (order + [c])[i] == c
  {
    assert order[..|order|] == order;
  }
}
