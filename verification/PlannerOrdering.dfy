/** The planner's sort and its own check. */
module PlannerOrdering {
  // The topological sort of mission specifications, the plan assembled from it, and the
  // check that dependencies point backwards.

  import opened Outcomes
  import opened Digraph
  import opened Ordering
  import opened TopologicalOrder
  import opened ReadyList

  datatype Spec = Spec(key: string, title: string, category: string, priority: string, dependsOn: seq<string>)

  datatype PlanError = InvalidDependency | CyclicOrUnresolved

  const TYPE_ORDER := ["database", "backend", "api", "security", "frontend", "testing", "deployment", "documentation"]

  /** Position in `TYPE_ORDER`, and past its end, by hash, for an unknown type. */
  function TypeIndex(hash: string -> nat): string -> nat {
    key => if key in TYPE_ORDER then Position(TYPE_ORDER, key) else |TYPE_ORDER| + hash(key) % 1000
  }

  function ByType(index: string -> nat): (string, string) -> bool {
    (a, b) => index(a) < index(b)
  }

  /** Not above: the only guarantee the sort gives between types with equal index. */
  function NotAbove(index: string -> nat): (string, string) -> bool {
    (a, b) => index(a) <= index(b)
  }

  function Keys(specs: seq<Spec>): (keys: seq<string>)
    ensures |keys| == |specs|
  {
    seq(|specs|, i requires 0 <= i < |specs| => specs[i].key)
  }

  /** Key to all dependency keys listed under it. */
  function PlanGraph(specs: seq<Spec>): Graph {
    if specs == [] then map[]
    else
      var g, last := PlanGraph(specs[..|specs| - 1]), specs[|specs| - 1];
      g[last.key := (if last.key in g then g[last.key] else []) + last.dependsOn]
  }

  lemma {:induction false} PlanGraphFacts(specs: seq<Spec>)
    ensures PlanGraph(specs).Keys == Elements(Keys(specs))
    ensures forall s, d :: s in specs && d in s.dependsOn ==> s.key in PlanGraph(specs) && d in PlanGraph(specs)[s.key]
    ensures forall k, d :: k in PlanGraph(specs) && d in PlanGraph(specs)[k] ==> Demands(specs, k, d)
  {
    if specs != [] {
      var rest, last := specs[..|specs| - 1], specs[|specs| - 1];
      PlanGraphFacts(rest);
      assert specs == rest + [last];
      assert Keys(specs) == Keys(rest) + [last.key];
      forall k, d | k in PlanGraph(specs) && d in PlanGraph(specs)[k] ensures Demands(specs, k, d) {
        if k in PlanGraph(rest) && d in PlanGraph(rest)[k] {
          var s :| s in rest && s.key == k && d in s.dependsOn;
          assert s in specs;
        } else {
          assert last in specs && k == last.key && d in last.dependsOn;
        }
      }
    }
  }

  /** Some specification under this key depends on that key. */
  ghost predicate Demands(specs: seq<Spec>, key: string, dep: string) {
    exists s :: s in specs && s.key == key && dep in s.dependsOn
  }

  lemma EdgeExactly(specs: seq<Spec>, key: string, dep: string)
    ensures Edge(PlanGraph(specs), key, dep) <==> Demands(specs, key, dep)
  {
    PlanGraphFacts(specs);
  }

  /** Keys that depend each on the next, the last being the first. */
  ghost predicate KeyLoop(specs: seq<Spec>, q: seq<string>) {
    && 2 <= |q| && q[0] == q[|q| - 1]
    && forall i, j :: 0 <= i && j == i + 1 && j < |q| ==> Demands(specs, q[i], q[j])
  }

  /** When a list of specifications can be planned: every dependency is a given key and no
      keys depend on one another in a loop. */
  lemma PlannableExactly(specs: seq<Spec>)
    ensures DependenciesKnown(PlanGraph(specs)) <==> forall s, d :: s in specs && d in s.dependsOn ==> d in Keys(specs)
    ensures Cyclic(PlanGraph(specs)) <==> exists q :: KeyLoop(specs, q)
  {
    PlanGraphFacts(specs);
    forall k, d ensures Edge(PlanGraph(specs), k, d) <==> Demands(specs, k, d) {
      EdgeExactly(specs, k, d);
    }
    if Cyclic(PlanGraph(specs)) {
      var n :| Reaches(PlanGraph(specs), n, n);
      var q :| Leads(PlanGraph(specs), q, n, n);
      assert KeyLoop(specs, q);
    }
    if exists q :: KeyLoop(specs, q) {
      var q :| KeyLoop(specs, q);
      assert Leads(PlanGraph(specs), q, q[0], q[0]);
      assert Reaches(PlanGraph(specs), q[0], q[0]);
    }
    assert forall k :: k in Keys(specs) <==> k in Elements(Keys(specs));
  }

  /** The nodes that have `x` in their adjacency set. */
  function Into(adj: map<Node, set<Node>>, x: Node): set<Node> {
    set d | d in adj && x in adj[d]
  }

  ghost predicate Indegrees(adj: map<Node, set<Node>>, indeg: map<Node, int>) {
    indeg.Keys == adj.Keys && forall x :: x in indeg ==> indeg[x] == |Into(adj, x)|
  }

  /** `after` is `before` with an edge to `key` from each node of `deps`. */
  ghost predicate EdgesAdded(before: map<Node, set<Node>>, after: map<Node, set<Node>>, key: Node, deps: seq<Node>) {
    && after.Keys == before.Keys
    && forall d, x :: d in before ==> (x in after[d] <==> x in before[d] || (x == key && d in deps))
  }

  method AddEdge(adj: map<Node, set<Node>>, indeg: map<Node, int>, dep: Node, key: Node)
    returns (adj': map<Node, set<Node>>, indeg': map<Node, int>)
    requires Indegrees(adj, indeg) && dep in adj && key in adj
    ensures Indegrees(adj', indeg') && EdgesAdded(adj, adj', key, [dep])
  {
    adj', indeg' := adj, indeg;
    if key !in adj[dep] {
      adj' := adj[dep := adj[dep] + {key}];
      indeg' := indeg[key := indeg[key] + 1];
      assert Into(adj', key) == Into(adj, key) + {dep};
      forall x | x in adj && x != key ensures Into(adj', x) == Into(adj, x) {
      }
    }
  }

  lemma EdgesAddedStep(a: map<Node, set<Node>>, b: map<Node, set<Node>>, c: map<Node, set<Node>>, key: Node,
                       deps: seq<Node>, k: nat)
    requires k < |deps| && EdgesAdded(a, b, key, deps[..k]) && EdgesAdded(b, c, key, [deps[k]])
    ensures EdgesAdded(a, c, key, deps[..k + 1])
  {
    assert deps[..k + 1] == deps[..k] + [deps[k]];
  }

  /** The first `k` dependencies are nodes. */
  ghost predicate KnownUpTo(deps: seq<Node>, k: nat, nodes: set<Node>)
    requires k <= |deps|
  {
    forall j :: 0 <= j < k ==> deps[j] in nodes
  }

  /** Adds the edges of one specification up to its first unknown dependency. */
  method AddEdges(adj0: map<Node, set<Node>>, indeg0: map<Node, int>, key: Node, deps: seq<Node>)
    returns (ok: bool, adj: map<Node, set<Node>>, indeg: map<Node, int>)
    requires Indegrees(adj0, indeg0) && key in adj0
    ensures ok <==> KnownUpTo(deps, |deps|, adj0.Keys)
    ensures ok ==> Indegrees(adj, indeg) && EdgesAdded(adj0, adj, key, deps)
  {
    adj, indeg := adj0, indeg0;
    for k := 0 to |deps|
      invariant Indegrees(adj, indeg) && EdgesAdded(adj0, adj, key, deps[..k])
      invariant KnownUpTo(deps, k, adj0.Keys)
    {
      if deps[k] !in adj {
        return false, adj, indeg;
      }
      ghost var before := adj;
      adj, indeg := AddEdge(adj, indeg, deps[k], key);
      EdgesAddedStep(adj0, before, adj, key, deps, k);
    }
    assert deps[..|deps|] == deps;
    return true, adj, indeg;
  }

  /** The adjacency table reverses the edges of `g`. */
  ghost predicate Reverses(adj: map<Node, set<Node>>, g: Graph) {
    forall d, x :: d in adj ==> (x in adj[d] <==> x in g && d in g[x])
  }

  ghost predicate Within(g: Graph, present: set<Node>) {
    g.Keys <= present && forall n, d :: n in g && d in g[n] ==> d in present
  }

  lemma ReversesSnoc(before: map<Node, set<Node>>, after: map<Node, set<Node>>, specs: seq<Spec>, s: Spec)
    requires Reverses(before, PlanGraph(specs)) && Within(PlanGraph(specs), before.Keys)
    requires EdgesAdded(before, after, s.key, s.dependsOn) && s.key in before
    requires KnownUpTo(s.dependsOn, |s.dependsOn|, before.Keys)
    ensures Reverses(after, PlanGraph(specs + [s])) && Within(PlanGraph(specs + [s]), after.Keys)
  {
    assert (specs + [s])[..|specs|] == specs;
  }

  lemma UnknownDependency(specs: seq<Spec>, s: Spec)
    requires s in specs && !KnownUpTo(s.dependsOn, |s.dependsOn|, Elements(Keys(specs)))
    ensures !DependenciesKnown(PlanGraph(specs))
  {
    var j :| 0 <= j < |s.dependsOn| && s.dependsOn[j] !in Elements(Keys(specs));
    var d := s.dependsOn[j];
    assert d in s.dependsOn;
    PlanGraphFacts(specs);
    assert s.key in PlanGraph(specs) && d in PlanGraph(specs)[s.key];
    assert d !in PlanGraph(specs).Keys;
  }

  method EmptyTables(present: set<Node>) returns (adj: map<Node, set<Node>>, indeg: map<Node, int>)
    ensures adj.Keys == present && Indegrees(adj, indeg)
    ensures Reverses(adj, map[])
  {
    adj := map k | k in present :: {};
    indeg := map k | k in present :: 0;
    assert forall x :: Into(adj, x) == {};
  }

  /** The tables reverse the graph of the specifications so far. */
  ghost predicate TablesFor(adj: map<Node, set<Node>>, indeg: map<Node, int>, g: Graph, nodes: set<Node>) {
    adj.Keys == nodes && Indegrees(adj, indeg) && Reverses(adj, g) && Within(g, nodes)
  }

  method AddSpec(ghost done: seq<Spec>, s: Spec, adj0: map<Node, set<Node>>, indeg0: map<Node, int>, ghost nodes: set<Node>)
    returns (ok: bool, adj: map<Node, set<Node>>, indeg: map<Node, int>)
    requires TablesFor(adj0, indeg0, PlanGraph(done), nodes) && s.key in nodes
    ensures ok <==> KnownUpTo(s.dependsOn, |s.dependsOn|, nodes)
    ensures ok ==> TablesFor(adj, indeg, PlanGraph(done + [s]), nodes)
  {
    ok, adj, indeg := AddEdges(adj0, indeg0, s.key, s.dependsOn);
    if ok {
      ReversesSnoc(adj0, adj, done, s);
    }
  }

  lemma Listed(specs: seq<Spec>, i: nat)
    requires i < |specs|
    ensures specs[i].key in Elements(Keys(specs))
    ensures specs[..i + 1] == specs[..i] + [specs[i]]
  {
    assert Keys(specs)[i] == specs[i].key;
  }

  method BuildEdges(specs: seq<Spec>) returns (ok: bool, adj: map<Node, set<Node>>, indeg: map<Node, int>)
    ensures ok <==> DependenciesKnown(PlanGraph(specs))
    ensures ok ==> EdgesOf(adj, indeg, PlanGraph(specs))
  {
    var present := set s | s in specs :: s.key;
    PresentIsKeys(specs, present);
    adj, indeg := EmptyTables(present);
    for i := 0 to |specs|
      invariant TablesFor(adj, indeg, PlanGraph(specs[..i]), Elements(Keys(specs)))
    {
      Listed(specs, i);
      ok, adj, indeg := AddSpec(specs[..i], specs[i], adj, indeg, Elements(Keys(specs)));
      if !ok {
        UnknownDependency(specs, specs[i]);
        return;
      }
    }
    assert specs[..|specs|] == specs;
    PlanGraphFacts(specs);
    StartExact(adj, indeg, PlanGraph(specs));
    ok := true;
  }

  lemma StartExact(adj: map<Node, set<Node>>, indeg: map<Node, int>, g: Graph)
    requires Indegrees(adj, indeg) && Reverses(adj, g) && Within(g, g.Keys) && adj.Keys == g.Keys
    ensures Exact(g, indeg, [])
  {
    forall x | x in g ensures indeg[x] == |Missing(g[x], [])| {
      assert Into(adj, x) == Missing(g[x], []);
    }
  }

  lemma PresentIsKeys(specs: seq<Spec>, present: set<Node>)
    requires present == set s | s in specs :: s.key
    ensures present == Elements(Keys(specs))
  {
    forall k | k in Elements(Keys(specs)) ensures k in present {
      var i :| 0 <= i < |specs| && Keys(specs)[i] == k;
      assert specs[i] in specs;
    }
    forall k | k in present ensures k in Elements(Keys(specs)) {
      var s :| s in specs && s.key == k;
      var i :| 0 <= i < |specs| && specs[i] == s;
      assert Keys(specs)[i] == k;
    }
  }

  /** The tables the main loop starts from. */
  ghost predicate EdgesOf(adj: map<Node, set<Node>>, indeg: map<Node, int>, g: Graph) {
    && adj.Keys == indeg.Keys == g.Keys
    && Reverses(adj, g)
    && Exact(g, indeg, [])
  }

  /** The dependencies that are not in `done`. */
  function Missing(deps: seq<Node>, done: seq<Node>): set<Node> {
    set d | d in deps && d !in done
  }

  /** Every indegree is the number of different dependencies still waiting. */
  ghost predicate Exact(g: Graph, indeg: map<Node, int>, done: seq<Node>) {
    indeg.Keys == g.Keys && forall x :: x in g ==> indeg[x] == |Missing(g[x], done)|
  }

  /** Lists a set's elements in some order. */
  method Enumerate(s: set<Node>) returns (list: seq<Node>)
    ensures Distinct(list) && Elements(list) == s
  {
    list := [];
    var left := s;
    while left != {}
      invariant left <= s && Distinct(list) && Elements(list) == s - left
      decreases left
    {
      var x :| x in left;
      assert Elements(list + [x]) == Elements(list) + {x};
      list := list + [x];
      left := left - {x};
    }
  }

  lemma ByTypeIsKeyOrder(index: string -> nat, nodes: set<Node>)
    ensures IsKeyOrder(ByType(index), nodes)
  {
  }

  function SortZero(index: string -> nat, zero: seq<Node>): seq<Node> {
    SortBy(ByType(index), zero)
  }

  lemma SortZeroFacts(index: string -> nat, indeg: map<Node, int>, order: seq<Node>, zero: seq<Node>)
    requires Released(indeg, order, zero)
    ensures Released(indeg, order, SortZero(index, zero))
    ensures SortedBy(ByType(index), SortZero(index, zero))
  {
    ByTypeIsKeyOrder(index, Elements(zero));
    SortAgain(ByType(index), indeg, order, zero);
  }

  /** Lowers the indegree of each successor once, re-sorting after each that becomes ready. */
  method Release(index: string -> nat, successors: seq<Node>, indeg0: map<Node, int>, ghost order: seq<Node>, zero0: seq<Node>)
    returns (indeg: map<Node, int>, zero: seq<Node>)
    requires Released(indeg0, order, zero0) && SortedBy(ByType(index), zero0)
    requires Distinct(successors) && forall x :: x in successors ==> x in indeg0
    ensures Released(indeg, order, zero) && SortedBy(ByType(index), zero)
    ensures indeg.Keys == indeg0.Keys
    ensures forall x :: x in indeg ==> indeg[x] == indeg0[x] - if x in successors then 1 else 0
  {
    indeg, zero := indeg0, zero0;
    for k := 0 to |successors|
      invariant Released(indeg, order, zero) && SortedBy(ByType(index), zero)
      invariant indeg.Keys == indeg0.Keys
      invariant forall x :: x in indeg ==> indeg[x] == indeg0[x] - if x in successors[..k] then 1 else 0
    {
      var nxt := successors[k];
      assert nxt !in successors[..k];
      assert successors[..k + 1] == successors[..k] + [nxt];
      indeg := indeg[nxt := indeg[nxt] - 1];
      if indeg[nxt] == 0 {
        assert order + (zero + [nxt]) == (order + zero) + [nxt];
        zero := zero + [nxt];
        SortZeroFacts(index, indeg, order, zero);
        zero := SortZero(index, zero);
      }
    }
  }

  ghost predicate OrderedSoFar(index: string -> nat, g: Graph, indeg: map<Node, int>, order: seq<Node>) {
    && Exact(g, indeg, order)
    && Respects(g, order)
    && LeastFirst(g, NotAbove(index), order)
  }

  lemma ExactZero(g: Graph, indeg: map<Node, int>, order: seq<Node>)
    requires Exact(g, indeg, order)
    ensures ZeroMeansSatisfied(g, indeg, order)
  {
    forall n | n in g ensures indeg[n] <= 0 <==> forall d :: d in g[n] ==> d in order {
      assert forall d :: d in Missing(g[n], order) <==> d in g[n] && d !in order;
      assert Missing(g[n], order) == {} <==> forall d :: d in g[n] ==> d in order;
    }
  }

  lemma ExactStep(g: Graph, before: map<Node, int>, after: map<Node, int>, order: seq<Node>, c: Node, successors: seq<Node>)
    requires Exact(g, before, order) && c !in order && before.Keys == after.Keys
    requires forall x :: x in successors <==> x in g && c in g[x]
    requires forall x :: x in after ==> after[x] == before[x] - if x in successors then 1 else 0
    ensures Exact(g, after, order + [c])
  {
    forall x | x in g ensures after[x] == |Missing(g[x], order + [c])| {
      MissingStep(g[x], order, c);
    }
  }

  lemma MissingStep(deps: seq<Node>, order: seq<Node>, c: Node)
    requires c !in order
    ensures |Missing(deps, order + [c])| == |Missing(deps, order)| - if c in deps then 1 else 0
  {
    if c in deps {
      assert Missing(deps, order) == Missing(deps, order + [c]) + {c};
    } else {
      assert Missing(deps, order) == Missing(deps, order + [c]);
    }
  }

  lemma StillUnlisted(g: Graph, indeg: map<Node, int>, order: seq<Node>)
    requires Released(indeg, order, []) && Exact(g, indeg, order) && DependenciesKnown(g)
    requires |order| != |g.Keys|
    ensures Cyclic(g)
  {
    assert order + [] == order;
    DistinctSize(order);
    SubsetSize(Elements(order), g.Keys);
    ExactZero(g, indeg, order);
    LeftOverMeansCyclic(g, indeg, order);
  }

  lemma AllListed(g: Graph, indeg: map<Node, int>, order: seq<Node>)
    requires Released(indeg, order, []) && indeg.Keys == g.Keys && |order| == |g.Keys|
    ensures Distinct(order) && Elements(order) == g.Keys
  {
    assert order + [] == order;
    DistinctSize(order);
    SameSizeSubset(Elements(order), g.Keys);
  }

  /** The last specification given for each key. */
  function KeyToSpec(specs: seq<Spec>): map<string, Spec> {
    if specs == [] then map[]
    else KeyToSpec(specs[..|specs| - 1])[specs[|specs| - 1].key := specs[|specs| - 1]]
  }

  /** `s` is given in `specs` and no later specification has its key. */
  ghost predicate LastOfKey(specs: seq<Spec>, s: Spec) {
    exists i :: 0 <= i < |specs| && specs[i] == s && forall j :: i < j < |specs| ==> specs[j].key != s.key
  }

  lemma LastOfKeySnoc(specs: seq<Spec>, last: Spec, s: Spec)
    ensures LastOfKey(specs + [last], last)
    ensures LastOfKey(specs, s) && s.key != last.key ==> LastOfKey(specs + [last], s)
  {
    assert (specs + [last])[|specs|] == last;
    if LastOfKey(specs, s) && s.key != last.key {
      var i :| 0 <= i < |specs| && specs[i] == s && forall j :: i < j < |specs| ==> specs[j].key != s.key;
      assert (specs + [last])[i] == s;
    }
  }

  lemma {:induction false} KeyToSpecFacts(specs: seq<Spec>)
    ensures KeyToSpec(specs).Keys == PlanGraph(specs).Keys
    ensures forall k :: k in KeyToSpec(specs) ==> KeyToSpec(specs)[k].key == k && LastOfKey(specs, KeyToSpec(specs)[k])
  {
    if specs != [] {
      var rest, last := specs[..|specs| - 1], specs[|specs| - 1];
      KeyToSpecFacts(rest);
      assert specs == rest + [last];
      forall k | k in KeyToSpec(specs) ensures KeyToSpec(specs)[k].key == k && LastOfKey(specs, KeyToSpec(specs)[k]) {
        LastOfKeySnoc(rest, last, KeyToSpec(specs)[k]);
      }
    }
  }

  /** `out` lists one specification per key of `specs`, the last one given, in dependency order. */
  ghost predicate SortOf(index: string -> nat, specs: seq<Spec>, out: seq<Spec>) {
    && Canonical(PlanGraph(specs), NotAbove(index), Keys(out))
    && forall s :: s in out ==> s in specs && LastOfKey(specs, s)
  }

  ghost predicate LoopState(index: string -> nat, g: Graph, indeg: map<Node, int>, order: seq<Node>, zero: seq<Node>) {
    && Released(indeg, order, zero)
    && SortedBy(ByType(index), zero)
    && OrderedSoFar(index, g, indeg, order)
  }

  /** One round of the main loop: pop the front, list it, release its successors in type order. */
  method EmitOne(index: string -> nat, ghost g: Graph, adj: map<Node, set<Node>>, indeg0: map<Node, int>,
                 order0: seq<Node>, zero0: seq<Node>)
    returns (indeg: map<Node, int>, order: seq<Node>, zero: seq<Node>)
    requires LoopState(index, g, indeg0, order0, zero0) && zero0 != []
    requires adj.Keys == g.Keys && Reverses(adj, g) && zero0[0] in g
    ensures LoopState(index, g, indeg, order, zero)
    ensures |order| == |order0| + 1
  {
    var k := zero0[0];
    MoveHead(indeg0, order0, zero0);
    order := order0 + [k];
    var successors := Enumerate(adj[k]);
    var sorted := SortZero(index, successors);
    SortedSuccessors(index, adj[k], successors);
    indeg, zero := Release(index, sorted, indeg0, order, zero0[1..]);
    OrderExtended(index, g, adj, indeg0, indeg, order0, zero0, sorted);
  }

  lemma OrderExtended(index: string -> nat, g: Graph, adj: map<Node, set<Node>>, before: map<Node, int>,
                      after: map<Node, int>, order: seq<Node>, zero: seq<Node>, sorted: seq<Node>)
    requires LoopState(index, g, before, order, zero) && zero != []
    requires adj.Keys == g.Keys && Reverses(adj, g) && zero[0] in g
    requires forall x :: x in sorted <==> x in adj[zero[0]]
    requires after.Keys == before.Keys
    requires forall x :: x in after ==> after[x] == before[x] - if x in sorted then 1 else 0
    ensures OrderedSoFar(index, g, after, order + [zero[0]])
  {
    assert zero[0] !in order by { ListedOrReady(order, zero); }
    ExactStep(g, before, after, order, zero[0], sorted);
    ExactZero(g, before, order);
    assert forall j :: 0 < j < |zero| ==> !ByType(index)(zero[j], zero[0]);
    EmitHead(g, NotAbove(index), before, order, zero);
  }

  lemma SortedSuccessors(index: string -> nat, s: set<Node>, successors: seq<Node>)
    requires Distinct(successors) && Elements(successors) == s
    ensures Distinct(SortZero(index, successors))
    ensures forall x :: x in SortZero(index, successors) <==> x in s
  {
    MultisetElements(successors, SortZero(index, successors));
    DistinctPermutation(successors, SortZero(index, successors));
    assert forall x :: x in successors <==> x in Elements(successors);
  }

  method FirstZero(index: string -> nat, ghost g: Graph, indeg: map<Node, int>) returns (zero: seq<Node>)
    requires Exact(g, indeg, [])
    ensures LoopState(index, g, indeg, [], zero)
  {
    var keys := Enumerate(indeg.Keys);
    zero := InitialReady(keys, indeg);
    SortZeroFacts(index, indeg, [], zero);
    zero := SortZero(index, zero);
  }

  /** The main loop: lists keys until none is ready. */
  method OrderKeys(index: string -> nat, ghost g: Graph, adj: map<Node, set<Node>>, indeg0: map<Node, int>)
    returns (order: seq<Node>)
    requires EdgesOf(adj, indeg0, g) && DependenciesKnown(g)
    ensures |order| == |g.Keys| <==> !Cyclic(g)
    ensures |order| == |g.Keys| ==> Canonical(g, NotAbove(index), order)
    ensures forall n :: n in order ==> n in g
  {
    var indeg := indeg0;
    var zero := FirstZero(index, g, indeg);
    order := [];
    while zero != []
      invariant LoopState(index, g, indeg, order, zero)
      decreases |g.Keys| - |order|
    {
      NotYetFull(g, indeg, order, zero);
      indeg, order, zero := EmitOne(index, g, adj, indeg, order, zero);
    }
    Verdict(index, g, indeg, order);
  }

  function SpecsOf(keyToSpec: map<string, Spec>, order: seq<Node>): (out: seq<Spec>)
    requires forall k :: k in order ==> k in keyToSpec
    ensures |out| == |order| && forall i :: 0 <= i < |order| ==> out[i] == keyToSpec[order[i]]
  {
    seq(|order|, i requires 0 <= i < |order| => keyToSpec[order[i]])
  }

  lemma SpecsOfFacts(specs: seq<Spec>, order: seq<Node>)
    requires forall k :: k in order ==> k in KeyToSpec(specs)
    ensures Keys(SpecsOf(KeyToSpec(specs), order)) == order
    ensures forall s :: s in SpecsOf(KeyToSpec(specs), order) ==> s in specs && LastOfKey(specs, s)
  {
    KeyToSpecFacts(specs);
    var out := SpecsOf(KeyToSpec(specs), order);
    forall i | 0 <= i < |order| ensures out[i].key == order[i] && out[i] in specs && LastOfKey(specs, out[i]) {
      assert order[i] in KeyToSpec(specs);
    }
  }

  method ToposortSpecs(index: string -> nat, specs: seq<Spec>) returns (r: Result<seq<Spec>, PlanError>)
    ensures r.Ok? <==> DependenciesKnown(PlanGraph(specs)) && !Cyclic(PlanGraph(specs))
    ensures r.Err? ==> (r.error == InvalidDependency <==> !DependenciesKnown(PlanGraph(specs)))
    ensures r.Ok? ==> SortOf(index, specs, r.value)
  {
    ghost var g := PlanGraph(specs);
    var keyToSpec := KeyToSpec(specs);
    KeyToSpecFacts(specs);
    assert |keyToSpec| == |keyToSpec.Keys| == |g.Keys|;
    var known, adj, indeg := BuildEdges(specs);
    if !known {
      return Err(InvalidDependency);
    }
    var order := OrderKeys(index, g, adj, indeg);
    if |order| != |keyToSpec| {
      return Err(CyclicOrUnresolved);
    }
    assert forall k :: k in order ==> k in keyToSpec.Keys;
    SpecsOfFacts(specs, order);
    return Ok(SpecsOf(keyToSpec, order));
  }

  /** When nothing is ready any more, the list is complete exactly if there is no cycle. */
  lemma Verdict(index: string -> nat, g: Graph, indeg: map<Node, int>, order: seq<Node>)
    requires LoopState(index, g, indeg, order, []) && DependenciesKnown(g)
    ensures |order| == |g.Keys| <==> !Cyclic(g)
    ensures |order| == |g.Keys| ==> Canonical(g, NotAbove(index), order)
    ensures forall n :: n in order ==> n in g
  {
    assert order + [] == order;
    if |order| == |g.Keys| {
      AllListed(g, indeg, order);
      assert forall n :: n in order <==> n in Elements(order);
      CompleteMeansAcyclic(g, order);
    } else {
      StillUnlisted(g, indeg, order);
    }
  }

  lemma NotYetFull(g: Graph, indeg: map<Node, int>, order: seq<Node>, zero: seq<Node>)
    requires Released(indeg, order, zero) && indeg.Keys == g.Keys && zero != []
    ensures |order| < |g.Keys|
    ensures zero[0] in g
  {
    assert zero[0] in order + zero;
    DistinctSize(order + zero);
    SubsetSize(Elements(order + zero), g.Keys);
  }

  /** A planned mission; `id` is the number after the letter M. */
  datatype PlannedMission = PlannedMission(id: nat, title: string, category: string, priority: string, dependsOn: seq<nat>)

  /** Every dependency is the id of some mission, and every mission carrying it is earlier. */
  ghost predicate PointsBackwards(missions: seq<PlannedMission>) {
    forall i, d :: 0 <= i < |missions| && d in missions[i].dependsOn ==> EarlierOnly(missions, i, d)
  }

  ghost predicate EarlierOnly(missions: seq<PlannedMission>, i: nat, d: nat) {
    && (exists j :: 0 <= j < |missions| && missions[j].id == d)
    && (forall j :: 0 <= j < |missions| && missions[j].id == d ==> j < i)
  }

  method ValidateDependencies(missions: seq<PlannedMission>) returns (ok: bool)
    ensures ok <==> PointsBackwards(missions)
  {
    var idToIndex: map<nat, nat> := map[];
    for i := 0 to |missions|
      invariant forall j :: 0 <= j < i ==> missions[j].id in idToIndex && j <= idToIndex[missions[j].id]
      invariant forall d :: d in idToIndex ==> idToIndex[d] < i && missions[idToIndex[d]].id == d
    {
      idToIndex := idToIndex[missions[i].id := i];
    }
    for i := 0 to |missions|
      invariant forall k, d :: 0 <= k < i && d in missions[k].dependsOn ==> EarlierOnly(missions, k, d)
    {
      for n := 0 to |missions[i].dependsOn|
        invariant forall d :: d in missions[i].dependsOn[..n] ==> EarlierOnly(missions, i, d)
      {
        var d := missions[i].dependsOn[n];
        if d !in idToIndex || idToIndex[d] >= i {
          assert !EarlierOnly(missions, i, d);
          return false;
        }
        assert EarlierOnly(missions, i, d);
      }
      assert missions[i].dependsOn[..|missions[i].dependsOn|] == missions[i].dependsOn;
    }
    return true;
  }

  /** `missions` numbers the specifications from one and renames their dependencies. */
  ghost predicate Numbers(missions: seq<PlannedMission>, specs: seq<Spec>) {
    && |missions| == |specs|
    && forall i {:trigger missions[i]} :: 0 <= i < |specs| ==> Renames(missions[i], specs[i], i, specs)
  }

  ghost predicate Renames(m: PlannedMission, s: Spec, i: nat, specs: seq<Spec>) {
    && m.id == i + 1 && m.title == s.title && m.category == s.category && m.priority == s.priority
    && StandFor(m.dependsOn, s.dependsOn, specs)
  }

  /** The sorted specifications in plain terms: each given key once, with the last
      specification given for it; each after all that any specification of its key depends
      on; and of two of which the later could have come already, the earlier has no higher
      type index. */
  ghost predicate SortSpelledOut(index: string -> nat, specs: seq<Spec>, sorted: seq<Spec>) {
    && Distinct(Keys(sorted))
    && (forall k :: k in Keys(sorted) <==> k in Keys(specs))
    && (forall s :: s in sorted ==> LastOfKey(specs, s))
    && (forall i, d :: 0 <= i < |sorted| && Demands(specs, sorted[i].key, d) ==> d in Keys(sorted)[..i])
    && (forall i, j :: 0 <= i < j < |sorted| && CouldCome(specs, sorted, i, j) ==> index(sorted[i].key) <= index(sorted[j].key))
  }

  /** All that the `j`th key depends on is among the first `i`. */
  ghost predicate CouldCome(specs: seq<Spec>, sorted: seq<Spec>, i: nat, j: nat)
    requires i < |sorted| && j < |sorted|
  {
    forall d :: Demands(specs, sorted[j].key, d) ==> d in Keys(sorted)[..i]
  }

  lemma SortIsSpelledOut(index: string -> nat, specs: seq<Spec>, sorted: seq<Spec>)
    requires SortOf(index, specs, sorted)
    ensures SortSpelledOut(index, specs, sorted)
  {
    var g, keys := PlanGraph(specs), Keys(sorted);
    PlanGraphFacts(specs);
    assert forall k :: k in keys <==> k in Elements(keys);
    assert forall k :: k in Keys(specs) <==> k in Elements(Keys(specs));
    forall i, d | 0 <= i < |sorted| && Demands(specs, sorted[i].key, d) ensures d in keys[..i] {
      EdgeExactly(specs, sorted[i].key, d);
      assert Satisfied(g, keys[..i], keys[i]);
    }
    forall i, j | 0 <= i < j < |sorted| && CouldCome(specs, sorted, i, j) ensures index(sorted[i].key) <= index(sorted[j].key) {
      SortedByType(index, specs, sorted, i, j);
    }
  }

  lemma SortedByType(index: string -> nat, specs: seq<Spec>, sorted: seq<Spec>, i: nat, j: nat)
    requires SortOf(index, specs, sorted) && i < j < |sorted| && CouldCome(specs, sorted, i, j)
    ensures index(sorted[i].key) <= index(sorted[j].key)
  {
    var g, keys := PlanGraph(specs), Keys(sorted);
    PlanGraphFacts(specs);
    assert keys[j] in Elements(keys) && keys[j] in g;
    forall d | d in g[keys[j]] ensures d in keys[..i] {
      EdgeExactly(specs, keys[j], d);
    }
    assert Satisfied(g, keys[..i], keys[j]) && keys[j] !in keys[..i] && keys[i] != keys[j];
    assert NotAbove(index)(keys[i], keys[j]);
  }

  /** A mission lists as many dependencies as its specification, by type index. */
  ghost predicate ListsByType(index: string -> nat, m: PlannedMission, s: Spec, specs: seq<Spec>) {
    && |m.dependsOn| == |s.dependsOn|
    && forall a, b :: 0 <= a < b < |m.dependsOn| ==> InTypeOrder(index, m.dependsOn[a], m.dependsOn[b], specs)
  }

  ghost predicate InTypeOrder(index: string -> nat, d: nat, e: nat, specs: seq<Spec>) {
    0 < d <= |specs| && 0 < e <= |specs| && index(specs[d - 1].key) <= index(specs[e - 1].key)
  }

  ghost predicate AllListByType(index: string -> nat, missions: seq<PlannedMission>, specs: seq<Spec>) {
    |missions| == |specs| && forall i {:trigger missions[i]} :: 0 <= i < |specs| ==> ListsByType(index, missions[i], specs[i], specs)
  }

  /** The eight known types come in their order, and an unknown one after them all. */
  lemma TypeIndexExactly(hash: string -> nat, key: string)
    ensures var known := ["database", "backend", "api", "security", "frontend", "testing", "deployment", "documentation"];
      && (key in known ==> TypeIndex(hash)(key) < 8 && known[TypeIndex(hash)(key)] == key)
      && (key !in known ==> 8 <= TypeIndex(hash)(key) < 1008)
  {
  }

  method NumberAll(index: string -> nat, ghost specs: seq<Spec>, ordered: seq<Spec>, idByKey: map<string, nat>)
    returns (missions: seq<PlannedMission>)
    requires SortOf(index, specs, ordered) && Numbered(idByKey, Keys(ordered))
    ensures Numbers(missions, ordered) && AllListByType(index, missions, ordered)
  {
    missions := [];
    for i := 0 to |ordered|
      invariant |missions| == i
      invariant forall k {:trigger missions[k]} :: 0 <= k < i ==>
        Renames(missions[k], ordered[k], k, ordered) && ListsByType(index, missions[k], ordered[k], ordered)
    {
      DependenciesNumbered(index, specs, ordered, idByKey, i);
      var m := NumberSpec(index, ordered, idByKey, i);
      missions := missions + [m];
    }
  }

  /** The plan: sorted specifications, numbered in that order. The planner's own check
      that dependencies point backwards never fails. */
  method Plan(index: string -> nat, specs: seq<Spec>)
    returns (r: Result<seq<PlannedMission>, PlanError>, ghost sorted: seq<Spec>)
    ensures r.Ok? <==> DependenciesKnown(PlanGraph(specs)) && !Cyclic(PlanGraph(specs))
    ensures r.Ok? <==>
      && (forall s, d :: s in specs && d in s.dependsOn ==> d in Keys(specs))
      && !exists q :: KeyLoop(specs, q)
    ensures r.Ok? ==> SortOf(index, specs, sorted) && Numbers(r.value, sorted) && PointsBackwards(r.value)
    ensures r.Ok? ==> SortSpelledOut(index, specs, sorted) && AllListByType(index, r.value, sorted)
  {
    PlannableExactly(specs);
    var toposorted := ToposortSpecs(index, specs);
    if toposorted.Err? {
      return Err(toposorted.error), [];
    }
    var ordered := toposorted.value;
    sorted := ordered;
    var idByKey := NumberKeys(Keys(ordered));
    var missions := NumberAll(index, specs, ordered, idByKey);
    PlanPointsBackwards(index, specs, ordered, missions);
    SortIsSpelledOut(index, specs, ordered);
    var ok := ValidateDependencies(missions);
    assert ok;
    return Ok(missions), sorted;
  }

  /** Each key is mapped to its position, counted from one. */
  ghost predicate Numbered(idByKey: map<string, nat>, keys: seq<string>) {
    && (forall k :: k in idByKey ==> k in keys)
    && (forall i :: 0 <= i < |keys| ==> keys[i] in idByKey && idByKey[keys[i]] == i + 1)
  }

  method NumberKeys(keys: seq<string>) returns (idByKey: map<string, nat>)
    requires Distinct(keys)
    ensures Numbered(idByKey, keys)
  {
    idByKey := map[];
    for i := 0 to |keys|
      invariant forall k :: k in idByKey ==> k in keys
      invariant forall j :: 0 <= j < i ==> keys[j] in idByKey && idByKey[keys[j]] == j + 1
    {
      idByKey := idByKey[keys[i] := i + 1];
    }
  }

  lemma NumberedBack(idByKey: map<string, nat>, keys: seq<string>, k: string)
    requires Numbered(idByKey, keys) && k in idByKey
    ensures 0 < idByKey[k] <= |keys| && keys[idByKey[k] - 1] == k
  {
    var i :| 0 <= i < |keys| && keys[i] == k;
  }

  /** The ids of a list of keys, position by position. */
  function Translated(keys: seq<string>, idByKey: map<string, nat>): (ids: seq<nat>)
    requires forall k :: k in keys ==> k in idByKey
    ensures |ids| == |keys| && forall i :: 0 <= i < |keys| ==> ids[i] == idByKey[keys[i]]
  {
    seq(|keys|, i requires 0 <= i < |keys| => idByKey[keys[i]])
  }

  /** The ids stand for the dependencies, in both directions. */
  ghost predicate StandFor(ids: seq<nat>, deps: seq<string>, specs: seq<Spec>) {
    && (forall d :: d in ids ==> IdOfOne(d, deps, specs))
    && (forall k :: k in deps ==> HasId(ids, k, specs))
  }

  ghost predicate IdOfOne(d: nat, deps: seq<string>, specs: seq<Spec>) {
    0 < d <= |specs| && specs[d - 1].key in deps
  }

  ghost predicate HasId(ids: seq<nat>, k: string, specs: seq<Spec>) {
    exists d :: d in ids && 0 < d <= |specs| && specs[d - 1].key == k
  }

  lemma TranslatedIds(sorted: seq<string>, deps: seq<string>, idByKey: map<string, nat>, ordered: seq<Spec>)
    requires multiset(sorted) == multiset(deps) && Numbered(idByKey, Keys(ordered))
    requires forall k :: k in deps ==> k in idByKey
    ensures forall k :: k in sorted ==> k in idByKey
    ensures StandFor(Translated(sorted, idByKey), deps, ordered)
  {
    MultisetElements(sorted, deps);
    var ids := Translated(sorted, idByKey);
    forall d | d in ids ensures IdOfOne(d, deps, ordered) {
      var n :| 0 <= n < |ids| && ids[n] == d;
      assert sorted[n] in deps;
      NumberedBack(idByKey, Keys(ordered), sorted[n]);
    }
    forall k | k in deps ensures HasId(ids, k, ordered) {
      assert k in sorted;
      var n :| 0 <= n < |sorted| && sorted[n] == k;
      NumberedBack(idByKey, Keys(ordered), k);
      assert ids[n] in ids;
    }
  }

  lemma TranslatedOrder(index: string -> nat, deps: seq<string>, idByKey: map<string, nat>, ordered: seq<Spec>)
    requires Numbered(idByKey, Keys(ordered)) && forall k :: k in SortBy(ByType(index), deps) ==> k in idByKey
    ensures var ids := Translated(SortBy(ByType(index), deps), idByKey);
      |ids| == |deps| && forall a, b :: 0 <= a < b < |ids| ==> InTypeOrder(index, ids[a], ids[b], ordered)
  {
    var sorted := SortBy(ByType(index), deps);
    ByTypeIsKeyOrder(index, Elements(deps));
    SortBySorted(ByType(index), deps);
    SameSize(sorted, deps);
    var ids := Translated(sorted, idByKey);
    forall a, b | 0 <= a < b < |ids| ensures InTypeOrder(index, ids[a], ids[b], ordered) {
      assert !ByType(index)(sorted[b], sorted[a]);
      assert sorted[a] in sorted && sorted[b] in sorted;
      PairInOrder(index, idByKey, ordered, sorted[a], sorted[b]);
    }
  }

  lemma PairInOrder(index: string -> nat, idByKey: map<string, nat>, ordered: seq<Spec>, x: string, y: string)
    requires Numbered(idByKey, Keys(ordered)) && x in idByKey && y in idByKey && index(x) <= index(y)
    ensures InTypeOrder(index, idByKey[x], idByKey[y], ordered)
  {
    NumberedBack(idByKey, Keys(ordered), x);
    NumberedBack(idByKey, Keys(ordered), y);
  }

  method NumberSpec(index: string -> nat, ordered: seq<Spec>, idByKey: map<string, nat>, i: nat) returns (m: PlannedMission)
    requires i < |ordered| && Numbered(idByKey, Keys(ordered))
    requires forall d :: d in ordered[i].dependsOn ==> d in idByKey
    ensures Renames(m, ordered[i], i, ordered) && ListsByType(index, m, ordered[i], ordered)
  {
    var s := ordered[i];
    var sorted := SortBy(ByType(index), s.dependsOn);
    TranslatedIds(sorted, s.dependsOn, idByKey, ordered);
    TranslatedOrder(index, s.dependsOn, idByKey, ordered);
    m := PlannedMission(i + 1, s.title, s.category, s.priority, Translated(sorted, idByKey));
  }

  lemma ListedDependencies(index: string -> nat, specs: seq<Spec>, ordered: seq<Spec>, i: nat)
    requires SortOf(index, specs, ordered) && i < |ordered|
    ensures forall d :: d in ordered[i].dependsOn ==> d in Keys(ordered)[..i]
  {
    PlanGraphFacts(specs);
    assert ordered[i] in specs;
    assert Satisfied(PlanGraph(specs), Keys(ordered)[..i], Keys(ordered)[i]);
  }

  lemma DependenciesNumbered(index: string -> nat, specs: seq<Spec>, ordered: seq<Spec>, idByKey: map<string, nat>, i: nat)
    requires SortOf(index, specs, ordered) && Numbered(idByKey, Keys(ordered)) && i < |ordered|
    ensures forall d :: d in ordered[i].dependsOn ==> d in idByKey
  {
    ListedDependencies(index, specs, ordered, i);
  }

  lemma PlanPointsBackwards(index: string -> nat, specs: seq<Spec>, ordered: seq<Spec>, missions: seq<PlannedMission>)
    requires SortOf(index, specs, ordered) && Numbers(missions, ordered)
    ensures PointsBackwards(missions)
  {
    forall i, d | 0 <= i < |missions| && d in missions[i].dependsOn ensures EarlierOnly(missions, i, d) {
      var m := missions[i];
      assert Renames(m, ordered[i], i, ordered);
      ListedBefore(index, specs, ordered, i, d);
      OneId(missions, ordered, d);
      assert missions[d - 1].id == d;
    }
  }

  lemma ListedBefore(index: string -> nat, specs: seq<Spec>, ordered: seq<Spec>, i: nat, d: nat)
    requires SortOf(index, specs, ordered) && i < |ordered|
    requires 0 < d <= |ordered| && ordered[d - 1].key in ordered[i].dependsOn
    ensures d <= i
  {
    ListedDependencies(index, specs, ordered, i);
    assert ordered[d - 1].key in Keys(ordered)[..i];
    var j :| 0 <= j < i && Keys(ordered)[j] == Keys(ordered)[d - 1];
  }

  lemma OneId(missions: seq<PlannedMission>, ordered: seq<Spec>, d: nat)
    requires Numbers(missions, ordered) && 0 < d <= |ordered|
    ensures forall j :: 0 <= j < |missions| ==> (missions[j].id == d <==> j == d - 1)
  {
    forall j | 0 <= j < |missions| ensures missions[j].id == d <==> j == d - 1 {
      assert Renames(missions[j], ordered[j], j, ordered);
    }
  }

  /** On the planner's eight known types the index has no ties, so the sorted order is
      the only canonical one, whatever order the specifications were listed in. */
  lemma PlannerOrderUnique(hash: string -> nat, specs: seq<Spec>, a: seq<Spec>, b: seq<Spec>)
    requires SortOf(TypeIndex(hash), specs, a) && SortOf(TypeIndex(hash), specs, b)
    requires forall k :: k in Keys(specs) ==> k in TYPE_ORDER
    ensures Keys(a) == Keys(b)
  {
    var g, less := PlanGraph(specs), NotAbove(TypeIndex(hash));
    PlanGraphFacts(specs);
    forall x, y | x in g && y in g && x != y && less(x, y) ensures !less(y, x) {
      assert x in Elements(Keys(specs)) && y in Elements(Keys(specs));
      TypeIndexInjective(hash, x, y);
    }
    CanonicalUnique(g, less, Keys(a), Keys(b));
  }

  lemma TypeIndexInjective(hash: string -> nat, x: string, y: string)
    requires x in TYPE_ORDER && y in TYPE_ORDER && x != y
    ensures TypeIndex(hash)(x) != TypeIndex(hash)(y)
  {
    assert TYPE_ORDER[Position(TYPE_ORDER, x)] == x && TYPE_ORDER[Position(TYPE_ORDER, y)] == y;
  }
}
