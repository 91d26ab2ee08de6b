/** The mission builder's priority-driven topological ordering. */
module MissionOrdering {
  import opened Outcomes
  import opened Digraph
  import opened Ordering
  import opened TopologicalOrder
  import opened ReadyList
  import opened Missions

  /** Sort key of a mission: lower priority number first, then step id, then input position. */
  datatype Rank = Rank(priority: int, stepId: string, index: nat)

  predicate RankBelow(a: Rank, b: Rank) {
    || a.priority < b.priority
    || (a.priority == b.priority && LexLess(a.stepId, b.stepId))
    || (a.priority == b.priority && a.stepId == b.stepId && a.index < b.index)
  }

  function Ranks(ms: seq<Mission>): map<Node, Rank> {
    if ms == [] then map[]
    else
      var m := ms[|ms| - 1];
      Ranks(ms[..|ms| - 1])[m.missionId := Rank(m.priority, m.stepId, |ms| - 1)]
  }

  function ByRank(ranks: map<Node, Rank>): (Node, Node) -> bool {
    (a, b) => a in ranks && b in ranks && RankBelow(ranks[a], ranks[b])
  }

  lemma {:induction false} RanksKeys(ms: seq<Mission>)
    ensures forall n :: n in Ranks(ms) <==> n in Ids(ms)
    ensures forall n :: n in Ranks(ms) ==>
      && Ranks(ms)[n].index < |ms|
      && var m := ms[Ranks(ms)[n].index];
         m.missionId == n && m.priority == Ranks(ms)[n].priority && m.stepId == Ranks(ms)[n].stepId
  {
    if ms != [] {
      var rest, last := ms[..|ms| - 1], ms[|ms| - 1];
      RanksKeys(rest);
      assert Ids(ms) == Ids(rest) + [last.missionId];
    }
  }

  lemma RankTrichotomy(a: Rank, b: Rank)
    ensures !(RankBelow(a, b) && RankBelow(b, a))
    ensures a == b || RankBelow(a, b) || RankBelow(b, a)
  {
    LexTotal(a.stepId, b.stepId);
    LexAsymmetric(a.stepId, b.stepId);
  }

  lemma RankTransitive(a: Rank, b: Rank, c: Rank)
    requires RankBelow(a, b) && RankBelow(b, c)
    ensures RankBelow(a, c)
  {
    if LexLess(a.stepId, b.stepId) && LexLess(b.stepId, c.stepId) {
      LexTransitive(a.stepId, b.stepId, c.stepId);
    }
  }

  lemma ByRankIsTotal(ms: seq<Mission>, a: Node, b: Node)
    requires a in Ranks(ms) && b in Ranks(ms)
    ensures ByRank(Ranks(ms))(a, b) ==> !ByRank(Ranks(ms))(b, a)
    ensures a == b || ByRank(Ranks(ms))(a, b) || ByRank(Ranks(ms))(b, a)
  {
    RanksKeys(ms);
    RankTrichotomy(Ranks(ms)[a], Ranks(ms)[b]);
  }

  lemma ByRankIsKeyOrder(ms: seq<Mission>)
    ensures IsKeyOrder(ByRank(Ranks(ms)), Ranks(ms).Keys)
  {
    var less := ByRank(Ranks(ms));
    forall a, b | a in Ranks(ms) && b in Ranks(ms) ensures less(a, b) ==> !less(b, a) {
      ByRankIsTotal(ms, a, b);
    }
    forall a, b, c | a in Ranks(ms) && b in Ranks(ms) && c in Ranks(ms) && !less(b, a) && !less(c, b)
      ensures !less(c, a)
    {
      ByRankIsTotal(ms, a, b);
      ByRankIsTotal(ms, b, c);
      ByRankIsTotal(ms, a, c);
      if a != b && b != c {
        RankTransitive(Ranks(ms)[a], Ranks(ms)[b], Ranks(ms)[c]);
      }
    }
  }

  /** How often `x` occurs in `s`. */
  function Count(s: seq<Node>, x: Node): nat {
    multiset(s)[x]
  }

  /** How many entries of `deps`, repeats included, are not in `done`. */
  function Waiting(deps: seq<Node>, done: seq<Node>): nat {
    if deps == [] then 0
    else Waiting(deps[..|deps| - 1], done) + if deps[|deps| - 1] in done then 0 else 1
  }

  lemma {:induction false} WaitingAll(deps: seq<Node>)
    ensures Waiting(deps, []) == |deps|
  {
    if deps != [] {
      WaitingAll(deps[..|deps| - 1]);
    }
  }

  lemma {:induction false} WaitingNone(deps: seq<Node>, done: seq<Node>)
    ensures Waiting(deps, done) == 0 <==> forall d :: d in deps ==> d in done
  {
    if deps != [] {
      var rest, last := deps[..|deps| - 1], deps[|deps| - 1];
      WaitingNone(rest, done);
      assert deps == rest + [last];
    }
  }

  lemma {:induction false} WaitingStep(deps: seq<Node>, done: seq<Node>, c: Node)
    requires c !in done
    ensures Waiting(deps, done + [c]) == Waiting(deps, done) - Count(deps, c)
  {
    if deps != [] {
      WaitingStep(deps[..|deps| - 1], done, c);
      assert deps == deps[..|deps| - 1] + [deps[|deps| - 1]];
    }
  }

  function Lookup(m: map<Node, seq<Node>>, k: Node): seq<Node> {
    if k in m then m[k] else []
  }

  /** `out` is `ms` rearranged into its canonical order. */
  ghost predicate OrderOf(ms: seq<Mission>, out: seq<Mission>) {
    && multiset(out) == multiset(ms)
    && Canonical(DepGraph(ms), ByRank(Ranks(ms)), Ids(out))
  }

  /** The lookup tables built in one pass over the missions. */
  datatype Tables = Tables(
    idToMission: map<Node, Mission>,
    keys: seq<Node>,
    indegree: map<Node, int>,
    dependants: map<Node, seq<Node>>,
    meta: map<Node, Rank>)

  /** `dependants` inverts the dependency lists, keeping multiplicity. */
  ghost predicate Inverts(dependants: map<Node, seq<Node>>, g: Graph) {
    forall d, x :: x in g ==> Count(Lookup(dependants, d), x) == Count(g[x], d)
  }

  ghost predicate DependantsWithin(dependants: map<Node, seq<Node>>, nodes: seq<Node>) {
    forall d, x :: x in Lookup(dependants, d) ==> x in nodes
  }

  ghost predicate TablesOf(t: Tables, ms: seq<Mission>) {
    && KeysOf(t.keys, ms)
    && RecordsOf(t, ms)
    && DependantsOf(t.dependants, ms)
    && t.meta == Ranks(ms)
  }

  ghost predicate KeysOf(keys: seq<Node>, ms: seq<Mission>) {
    Distinct(keys) && Elements(keys) == DepGraph(ms).Keys == Elements(Ids(ms))
  }

  ghost predicate DependantsOf(dependants: map<Node, seq<Node>>, ms: seq<Mission>) {
    && DependantsWithin(dependants, Ids(ms))
    && (Distinct(Ids(ms)) ==> Inverts(dependants, DepGraph(ms)))
  }

  ghost predicate RecordsOf(t: Tables, ms: seq<Mission>) {
    && t.indegree.Keys == t.idToMission.Keys == DepGraph(ms).Keys
    && (forall n :: n in t.indegree ==> t.indegree[n] == |DepGraph(ms)[n]|)
    && (forall n :: n in t.idToMission ==> t.idToMission[n] in ms && t.idToMission[n].missionId == n)
  }

  method BuildTables(ms: seq<Mission>) returns (t: Tables)
    ensures TablesOf(t, ms)
  {
    t := Tables(map[], [], map[], map[], map[]);
    for idx := 0 to |ms|
      invariant TablesOf(t, ms[..idx])
    {
      var m := ms[idx];
      assert ms[..idx + 1] == ms[..idx] + [m];
      t := AddMission(t, ms[..idx], m);
    }
    assert ms[..|ms|] == ms;
  }

  lemma AddMissionMaps(earlier: seq<Mission>, m: Mission)
    ensures DepGraph(earlier + [m]) == DepGraph(earlier)[m.missionId := m.dependencies]
    ensures Ranks(earlier + [m]) == Ranks(earlier)[m.missionId := Rank(m.priority, m.stepId, |earlier|)]
  {
    DepGraphSnoc(earlier, m);
    assert (earlier + [m])[..|earlier|] == earlier;
  }

  lemma KeysSnoc(keys: seq<Node>, earlier: seq<Mission>, m: Mission)
    requires KeysOf(keys, earlier)
    ensures KeysOf(if m.missionId in keys then keys else keys + [m.missionId], earlier + [m])
  {
    AddMissionMaps(earlier, m);
    IdsSnoc(earlier, m);
  }

  method AddMission(t: Tables, earlier: seq<Mission>, m: Mission) returns (r: Tables)
    requires TablesOf(t, earlier)
    ensures TablesOf(r, earlier + [m])
  {
    var dependants := AddDependant(t.dependants, m, Ids(earlier));
    r := Tables(
      t.idToMission[m.missionId := m],
      if m.missionId in t.keys then t.keys else t.keys + [m.missionId],
      t.indegree[m.missionId := |m.dependencies|],
      dependants,
      t.meta[m.missionId := Rank(m.priority, m.stepId, |earlier|)]);
    TablesSnoc(t, r, earlier, m);
  }

  lemma TablesSnoc(t: Tables, r: Tables, earlier: seq<Mission>, m: Mission)
    requires TablesOf(t, earlier)
    requires r.idToMission == t.idToMission[m.missionId := m]
    requires r.keys == if m.missionId in t.keys then t.keys else t.keys + [m.missionId]
    requires r.indegree == t.indegree[m.missionId := |m.dependencies|]
    requires r.meta == t.meta[m.missionId := Rank(m.priority, m.stepId, |earlier|)]
    requires DependantsWithin(r.dependants, Ids(earlier) + [m.missionId])
    requires Added(t.dependants, r.dependants, m.missionId, m.dependencies)
    ensures TablesOf(r, earlier + [m])
  {
    assert KeysOf(r.keys, earlier + [m]) by { KeysSnoc(t.keys, earlier, m); }
    assert RecordsOf(r, earlier + [m]) by { RecordsSnoc(t, r, earlier, m); }
    assert DependantsOf(r.dependants, earlier + [m]) by { DependantsSnoc(t.dependants, r.dependants, earlier, m); }
    AddMissionMaps(earlier, m);
  }

  lemma RecordsSnoc(t: Tables, r: Tables, earlier: seq<Mission>, m: Mission)
    requires RecordsOf(t, earlier)
    requires r.idToMission == t.idToMission[m.missionId := m]
    requires r.indegree == t.indegree[m.missionId := |m.dependencies|]
    ensures RecordsOf(r, earlier + [m])
  {
    AddMissionMaps(earlier, m);
  }

  lemma DependantsSnoc(before: map<Node, seq<Node>>, after: map<Node, seq<Node>>, earlier: seq<Mission>, m: Mission)
    requires DependantsOf(before, earlier) && DepGraph(earlier).Keys == Elements(Ids(earlier))
    requires DependantsWithin(after, Ids(earlier) + [m.missionId])
    requires Added(before, after, m.missionId, m.dependencies)
    ensures DependantsOf(after, earlier + [m])
  {
    AddMissionMaps(earlier, m);
    IdsSnoc(earlier, m);
    if Distinct(Ids(earlier + [m])) {
      LastIdIsNew(earlier, m);
      InvertsStep(before, after, DepGraph(earlier), m);
    }
  }

  lemma IdsSnoc(earlier: seq<Mission>, m: Mission)
    ensures Ids(earlier + [m]) == Ids(earlier) + [m.missionId]
    ensures Elements(Ids(earlier + [m])) == Elements(Ids(earlier)) + {m.missionId}
    ensures Distinct(Ids(earlier + [m])) ==> Distinct(Ids(earlier))
  {
    assert Ids(earlier + [m]) == Ids(earlier) + [m.missionId];
    if Distinct(Ids(earlier + [m])) {
      forall i, j | 0 <= i < j < |earlier| ensures Ids(earlier)[i] != Ids(earlier)[j] {
        assert Ids(earlier + [m])[i] != Ids(earlier + [m])[j];
      }
    }
  }

  lemma LastIdIsNew(earlier: seq<Mission>, m: Mission)
    requires Distinct(Ids(earlier + [m]))
    ensures m.missionId !in Ids(earlier)
  {
    IdsSnoc(earlier, m);
    forall k | 0 <= k < |earlier| ensures Ids(earlier)[k] != m.missionId {
      assert Ids(earlier + [m])[k] != Ids(earlier + [m])[|earlier|];
    }
  }

  /** `after` is `before` with `m` added once for each entry of its dependency list. */
  ghost predicate Added(before: map<Node, seq<Node>>, after: map<Node, seq<Node>>, mid: Node, deps: seq<Node>) {
    forall d, x :: AddedAt(before, after, mid, deps, d, x)
  }

  ghost predicate AddedAt(before: map<Node, seq<Node>>, after: map<Node, seq<Node>>, mid: Node, deps: seq<Node>,
                          d: Node, x: Node) {
    Count(Lookup(after, d), x) == Count(Lookup(before, d), x) + if x == mid then Count(deps, d) else 0
  }

  /** Appending the id once more under `d`. */
  lemma AddedNext(before: map<Node, seq<Node>>, last: map<Node, seq<Node>>, mid: Node, deps: seq<Node>, d: Node, nodes: seq<Node>)
    requires DependantsWithin(last, nodes) && mid in nodes && Added(before, last, mid, deps)
    ensures var after := last[d := Lookup(last, d) + [mid]];
      DependantsWithin(after, nodes) && Added(before, after, mid, deps + [d])
  {
    var after := last[d := Lookup(last, d) + [mid]];
    forall e, x | x in Lookup(after, e) ensures x in nodes {
      assert x in Lookup(last, e) || x == mid;
    }
    forall e, x ensures AddedAt(before, after, mid, deps + [d], e, x) {
      assert AddedAt(before, last, mid, deps, e, x);
      AddedAtNext(before, last, mid, deps, d, e, x);
    }
  }

  lemma AddedAtNext(before: map<Node, seq<Node>>, last: map<Node, seq<Node>>, mid: Node, deps: seq<Node>, d: Node, e: Node, x: Node)
    requires AddedAt(before, last, mid, deps, e, x)
    ensures AddedAt(before, last[d := Lookup(last, d) + [mid]], mid, deps + [d], e, x)
  {
    CountSnoc(deps, d, e);
    CountSnoc(Lookup(last, d), mid, x);
  }

  lemma CountSnoc(s: seq<Node>, last: Node, x: Node)
    ensures Count(s + [last], x) == Count(s, x) + if last == x then 1 else 0
  {
  }

  method AddDependant(before: map<Node, seq<Node>>, m: Mission, ghost earlier: seq<Node>)
    returns (after: map<Node, seq<Node>>)
    requires DependantsWithin(before, earlier)
    ensures DependantsWithin(after, earlier + [m.missionId])
    ensures Added(before, after, m.missionId, m.dependencies)
  {
    after := before;
    assert m.dependencies[..0] == [];
    for k := 0 to |m.dependencies|
      invariant DependantsWithin(after, earlier + [m.missionId])
      invariant Added(before, after, m.missionId, m.dependencies[..k])
    {
      var d := m.dependencies[k];
      ghost var last := after;
      after := after[d := Lookup(after, d) + [m.missionId]];
      assert m.dependencies[..k + 1] == m.dependencies[..k] + [d];
      AddedNext(before, last, m.missionId, m.dependencies[..k], d, earlier + [m.missionId]);
    }
    assert m.dependencies[..|m.dependencies|] == m.dependencies;
  }

  /** Adding a mission whose id is new keeps the inversion exact. */
  lemma InvertsStep(before: map<Node, seq<Node>>, after: map<Node, seq<Node>>, g: Graph, m: Mission)
    requires Inverts(before, g) && m.missionId !in g
    requires forall d, x :: x in Lookup(before, d) ==> x in g
    requires Added(before, after, m.missionId, m.dependencies)
    ensures Inverts(after, g[m.missionId := m.dependencies])
  {
    var h := g[m.missionId := m.dependencies];
    forall d, x | x in h ensures Count(Lookup(after, d), x) == Count(h[x], d) {
      assert AddedAt(before, after, m.missionId, m.dependencies, d, x);
    }
  }

  /** Every indegree counts the dependency entries still waiting. */
  ghost predicate Exact(g: Graph, indegree: map<Node, int>, done: seq<Node>) {
    indegree.Keys == g.Keys && forall x :: x in g ==> indegree[x] == Waiting(g[x], done)
  }

  /** Lowers the indegree of the dependants of the mission just emitted and appends
      those that become ready. */
  method Release(dependants: seq<Node>, indegree0: map<Node, int>, ordered: seq<Node>, ready0: seq<Node>)
    returns (indegree: map<Node, int>, ready: seq<Node>)
    requires Released(indegree0, ordered, ready0)
    requires forall x :: x in dependants ==> x in indegree0
    ensures Released(indegree, ordered, ready)
    ensures indegree.Keys == indegree0.Keys
    ensures forall x :: x in indegree ==> indegree[x] == indegree0[x] - Count(dependants, x)
  {
    indegree, ready := indegree0, ready0;
    for k := 0 to |dependants|
      invariant Released(indegree, ordered, ready)
      invariant indegree.Keys == indegree0.Keys
      invariant forall x :: x in indegree ==> indegree[x] == indegree0[x] - Count(dependants[..k], x)
    {
      var dep := dependants[k];
      assert dependants[..k + 1] == dependants[..k] + [dep];
      ReleasedNext(indegree, ordered, ready, dep);
      indegree := indegree[dep := indegree[dep] - 1];
      if indegree[dep] == 0 {
        ready := ready + [dep];
      }
    }
    assert dependants[..|dependants|] == dependants;
  }

  function SortReady(meta: map<Node, Rank>, ready: seq<Node>): seq<Node> {
    SortBy(ByRank(meta), ready)
  }

  lemma SortReadyFacts(ms: seq<Mission>, indegree: map<Node, int>, ordered: seq<Node>, ready: seq<Node>)
    requires Released(indegree, ordered, ready) && indegree.Keys == Ranks(ms).Keys
    ensures Released(indegree, ordered, SortReady(Ranks(ms), ready))
    ensures SortedBy(ByRank(Ranks(ms)), SortReady(Ranks(ms), ready))
  {
    ByRankIsKeyOrder(ms);
    assert Elements(ready) <= Ranks(ms).Keys by {
      forall x | x in ready ensures x in Ranks(ms) {
        assert x in ordered + ready;
      }
    }
    SortAgain(ByRank(Ranks(ms)), indegree, ordered, ready);
  }

  /** What the main loop keeps when the mission ids are distinct. */
  ghost predicate OrderedSoFar(ms: seq<Mission>, indegree: map<Node, int>, ordered: seq<Node>) {
    && Exact(DepGraph(ms), indegree, ordered)
    && Respects(DepGraph(ms), ordered)
    && LeastFirst(DepGraph(ms), ByRank(Ranks(ms)), ordered)
  }

  /** Lowering one indegree releases its node when it reaches zero. */
  lemma ReleasedNext(indegree: map<Node, int>, ordered: seq<Node>, ready: seq<Node>, n: Node)
    requires Released(indegree, ordered, ready) && n in indegree
    ensures Released(indegree[n := indegree[n] - 1], ordered, if indegree[n] == 1 then ready + [n] else ready)
  {
    assert ordered + (ready + [n]) == (ordered + ready) + [n];
  }

  lemma ExactZero(g: Graph, indegree: map<Node, int>, ordered: seq<Node>)
    requires Exact(g, indegree, ordered)
    ensures ZeroMeansSatisfied(g, indegree, ordered)
  {
    forall n | n in g ensures indegree[n] <= 0 <==> forall d :: d in g[n] ==> d in ordered {
      WaitingNone(g[n], ordered);
    }
  }

  /** Emitting the head of the sorted ready list extends the canonical order. */
  lemma EmitLeast(ms: seq<Mission>, indegree: map<Node, int>, ordered: seq<Node>, ready: seq<Node>)
    requires Released(indegree, ordered, ready) && OrderedSoFar(ms, indegree, ordered)
    requires DepGraph(ms).Keys == Ranks(ms).Keys
    requires ready != [] && SortedBy(ByRank(Ranks(ms)), ready)
    ensures Respects(DepGraph(ms), ordered + [ready[0]])
    ensures LeastFirst(DepGraph(ms), ByRank(Ranks(ms)), ordered + [ready[0]])
  {
    var less := ByRank(Ranks(ms));
    ExactZero(DepGraph(ms), indegree, ordered);
    forall j | 0 < j < |ready| && ready[j] != ready[0] ensures less(ready[0], ready[j]) {
      assert ready[0] in ordered + ready && ready[j] in ordered + ready;
      assert !less(ready[j], ready[0]);
      ByRankIsTotal(ms, ready[0], ready[j]);
    }
    EmitHead(DepGraph(ms), less, indegree, ordered, ready);
  }

  lemma ExactStep(g: Graph, before: map<Node, int>, after: map<Node, int>, ordered: seq<Node>, c: Node,
                  dependants: seq<Node>)
    requires Exact(g, before, ordered) && c !in ordered && before.Keys == after.Keys
    requires forall x :: x in g ==> Count(dependants, x) == Count(g[x], c)
    requires forall x :: x in after ==> after[x] == before[x] - Count(dependants, x)
    ensures Exact(g, after, ordered + [c])
  {
    forall x | x in g ensures after[x] == Waiting(g[x], ordered + [c]) {
      WaitingStep(g[x], ordered, c);
    }
  }

  lemma StartExact(g: Graph, indegree: map<Node, int>)
    requires indegree.Keys == g.Keys && forall n :: n in g ==> indegree[n] == |g[n]|
    ensures Exact(g, indegree, [])
  {
    forall n | n in g ensures indegree[n] == Waiting(g[n], []) {
      WaitingAll(g[n]);
    }
  }

  lemma ListedWithin(ms: seq<Mission>, indegree: map<Node, int>, ordered: seq<Node>, ready: seq<Node>)
    requires Released(indegree, ordered, ready) && indegree.Keys == Elements(Ids(ms))
    ensures |ordered| + |ready| <= |ms|
  {
    DistinctSize(ordered + ready);
    SubsetSize(Elements(ordered + ready), Elements(Ids(ms)));
    DistinctSize(Ids(ms));
  }

  /** If as many ids were emitted as there are missions, the ids are distinct and all emitted. */
  lemma AllListed(ms: seq<Mission>, indegree: map<Node, int>, ordered: seq<Node>)
    requires Released(indegree, ordered, []) && indegree.Keys == Elements(Ids(ms))
    requires |ordered| == |ms|
    ensures Distinct(ordered) && Distinct(Ids(ms)) && Elements(ordered) == Elements(Ids(ms))
  {
    assert ordered + [] == ordered;
    DistinctSize(ordered);
    DistinctSize(Ids(ms));
    SubsetSize(Elements(ordered), Elements(Ids(ms)));
    SameSizeSubset(Elements(ordered), Elements(Ids(ms)));
  }

  lemma UnlistedMeansCyclic(ms: seq<Mission>, indegree: map<Node, int>, ordered: seq<Node>)
    requires Released(indegree, ordered, []) && Exact(DepGraph(ms), indegree, ordered)
    requires DepGraph(ms).Keys == Elements(Ids(ms)) && Distinct(Ids(ms)) && DependenciesKnown(DepGraph(ms))
    requires |ordered| < |ms|
    ensures Cyclic(DepGraph(ms))
  {
    DistinctSize(Ids(ms));
    ExactZero(DepGraph(ms), indegree, ordered);
    LeftOverMeansCyclic(DepGraph(ms), indegree, ordered);
  }

  lemma SameIdsPermute(ms: seq<Mission>, out: seq<Mission>)
    requires Distinct(Ids(ms)) && Distinct(Ids(out)) && Elements(Ids(out)) == Elements(Ids(ms))
    requires forall m :: m in out ==> m in ms
    ensures multiset(out) == multiset(ms)
  {
    DistinctIdsDistinct(ms);
    DistinctIdsDistinct(out);
    forall m | m in ms ensures m in out {
      var i :| 0 <= i < |ms| && ms[i] == m;
      assert Ids(ms)[i] in Elements(Ids(out));
      var j :| 0 <= j < |out| && Ids(out)[j] == m.missionId;
      SameIdSameMission(ms, m, out[j]);
    }
    SameElementsPermute(ms, out);
  }

  lemma DistinctIdsDistinct(ms: seq<Mission>)
    requires Distinct(Ids(ms))
    ensures Distinct(ms)
  {
    forall i, j | 0 <= i < j < |ms| ensures ms[i] != ms[j] {
      assert Ids(ms)[i] != Ids(ms)[j];
    }
  }

  /** Missions that can be ordered: distinct ids, every dependency the id of a mission
      in the list, and no cycle. */
  ghost predicate Orderable(ms: seq<Mission>) {
    Distinct(Ids(ms)) && DependenciesKnown(DepGraph(ms)) && !Cyclic(DepGraph(ms))
  }

  method OrderMissions(ms: seq<Mission>) returns (r: Result<seq<Mission>, BuildError>)
    ensures r.Ok? <==> Orderable(ms)
    ensures r.Ok? ==> OrderOf(ms, r.value)
    ensures r.Err? ==> r.error == CircularDependency
  {
    var t := BuildTables(ms);
    var ordered := OrderIds(ms, t);
    if |ordered| != |ms| {
      return Err(CircularDependency);
    }
    MissionsOfFacts(ms, t, ordered);
    return Ok(MissionsOf(t.idToMission, ordered));
  }

  /** The main loop: lists ids until none is ready. Every id is listed exactly if the list is orderable. */
  method OrderIds(ms: seq<Mission>, t: Tables) returns (ordered: seq<Node>)
    requires TablesOf(t, ms)
    ensures |ordered| == |ms| <==> Orderable(ms)
    ensures |ordered| == |ms| ==> Canonical(DepGraph(ms), ByRank(Ranks(ms)), ordered)
    ensures forall n :: n in ordered ==> n in Elements(Ids(ms))
  {
    var indegree := t.indegree;
    var ready := FirstReady(ms, t);
    ordered := [];
    while ready != []
      invariant LoopState(ms, indegree, ordered, ready)
      decreases |ms| - |ordered|
    {
      ListedWithin(ms, indegree, ordered, ready);
      indegree, ordered, ready := EmitOne(ms, t, indegree, ordered, ready);
    }
    ListedWithin(ms, indegree, ordered, ready);
    Verdict(ms, indegree, ordered);
  }

  method FirstReady(ms: seq<Mission>, t: Tables) returns (ready: seq<Node>)
    requires TablesOf(t, ms)
    ensures LoopState(ms, t.indegree, [], ready)
  {
    ready := InitialReady(t.keys, t.indegree);
    SortKeeps(ms, t.indegree, [], ready);
    ready := SortReady(t.meta, ready);
    if Distinct(Ids(ms)) {
      StartExact(DepGraph(ms), t.indegree);
    }
  }

  function MissionsOf(idToMission: map<Node, Mission>, ordered: seq<Node>): (out: seq<Mission>)
    requires forall n :: n in ordered ==> n in idToMission
    ensures |out| == |ordered| && forall i :: 0 <= i < |ordered| ==> out[i] == idToMission[ordered[i]]
  {
    seq(|ordered|, i requires 0 <= i < |ordered| => idToMission[ordered[i]])
  }

  lemma MissionsOfFacts(ms: seq<Mission>, t: Tables, ordered: seq<Node>)
    requires TablesOf(t, ms) && Orderable(ms) && forall n :: n in ordered ==> n in Elements(Ids(ms))
    requires Canonical(DepGraph(ms), ByRank(Ranks(ms)), ordered)
    ensures forall n :: n in ordered ==> n in t.idToMission
    ensures OrderOf(ms, MissionsOf(t.idToMission, ordered))
  {
    ListedRecords(ms, t, ordered);
    SameIdsPermute(ms, MissionsOf(t.idToMission, ordered));
  }

  lemma ListedRecords(ms: seq<Mission>, t: Tables, ordered: seq<Node>)
    requires RecordsOf(t, ms) && DepGraph(ms).Keys == Elements(Ids(ms)) && forall n :: n in ordered ==> n in Elements(Ids(ms))
    ensures forall n :: n in ordered ==> n in t.idToMission
    ensures Ids(MissionsOf(t.idToMission, ordered)) == ordered
    ensures forall m :: m in MissionsOf(t.idToMission, ordered) ==> m in ms
  {
  }

  ghost predicate LoopState(ms: seq<Mission>, indegree: map<Node, int>, ordered: seq<Node>, ready: seq<Node>) {
    && indegree.Keys == Elements(Ids(ms)) == DepGraph(ms).Keys
    && Released(indegree, ordered, ready)
    && SortedBy(ByRank(Ranks(ms)), ready)
    && (Distinct(Ids(ms)) ==> OrderedSoFar(ms, indegree, ordered))
  }

  /** One round of the main loop: pop the front, list it, release its dependants, re-sort. */
  method EmitOne(ms: seq<Mission>, t: Tables, indegree0: map<Node, int>, ordered0: seq<Node>, ready0: seq<Node>)
    returns (indegree: map<Node, int>, ordered: seq<Node>, ready: seq<Node>)
    requires TablesOf(t, ms) && LoopState(ms, indegree0, ordered0, ready0) && ready0 != []
    ensures LoopState(ms, indegree, ordered, ready)
    ensures |ordered| == |ordered0| + 1
  {
    var current := ready0[0];
    MoveHead(indegree0, ordered0, ready0);
    ordered := ordered0 + [current];
    var released := Lookup(t.dependants, current);
    indegree, ready := Release(released, indegree0, ordered, ready0[1..]);
    assert Distinct(Ids(ms)) ==> OrderedSoFar(ms, indegree, ordered) by {
      if Distinct(Ids(ms)) {
        OrderExtended(ms, t, indegree0, indegree, ordered0, ready0);
      }
    }
    SortKeeps(ms, indegree, ordered, ready);
    ready := SortReady(t.meta, ready);
  }

  lemma SortKeeps(ms: seq<Mission>, indegree: map<Node, int>, ordered: seq<Node>, ready: seq<Node>)
    requires Released(indegree, ordered, ready) && indegree.Keys == Elements(Ids(ms))
    ensures Released(indegree, ordered, SortReady(Ranks(ms), ready))
    ensures SortedBy(ByRank(Ranks(ms)), SortReady(Ranks(ms), ready))
  {
    RanksKeys(ms);
    SortReadyFacts(ms, indegree, ordered, ready);
  }

  lemma OrderExtended(ms: seq<Mission>, t: Tables, before: map<Node, int>, after: map<Node, int>,
                      ordered: seq<Node>, ready: seq<Node>)
    requires LoopState(ms, before, ordered, ready) && ready != [] && Distinct(Ids(ms))
    requires Inverts(t.dependants, DepGraph(ms)) && after.Keys == before.Keys
    requires forall x :: x in after ==> after[x] == before[x] - Count(Lookup(t.dependants, ready[0]), x)
    ensures OrderedSoFar(ms, after, ordered + [ready[0]])
  {
    MoveHead(before, ordered, ready);
    ExactNext(DepGraph(ms), t.dependants, before, after, ordered, ready[0]);
    RanksKeys(ms);
    EmitLeast(ms, before, ordered, ready);
  }

  lemma ExactNext(g: Graph, dependants: map<Node, seq<Node>>, before: map<Node, int>, after: map<Node, int>, ordered: seq<Node>, c: Node)
    requires Inverts(dependants, g) && Exact(g, before, ordered) && c !in ordered && before.Keys == after.Keys
    requires forall x :: x in after ==> after[x] == before[x] - Count(Lookup(dependants, c), x)
    ensures Exact(g, after, ordered + [c])
  {
    ExactStep(g, before, after, ordered, c, Lookup(dependants, c));
  }

  /** When nothing is ready any more, every mission was emitted exactly if the list is orderable. */
  lemma Verdict(ms: seq<Mission>, indegree: map<Node, int>, ordered: seq<Node>)
    requires LoopState(ms, indegree, ordered, [])
    ensures |ordered| == |ms| <==> Orderable(ms)
    ensures |ordered| == |ms| ==> Canonical(DepGraph(ms), ByRank(Ranks(ms)), ordered)
    ensures forall n :: n in ordered ==> n in Elements(Ids(ms))
  {
    assert ordered + [] == ordered;
    ListedWithin(ms, indegree, ordered, []);
    if |ordered| == |ms| {
      AllListed(ms, indegree, ordered);
      assert forall n :: n in ordered <==> n in Elements(ordered);
      CompleteMeansAcyclic(DepGraph(ms), ordered);
    } else if Orderable(ms) {
      UnlistedMeansCyclic(ms, indegree, ordered);
    }
  }

  /** The order without the input position: lower priority number, then step id. */
  predicate Below(a: Mission, b: Mission) {
    a.priority < b.priority || (a.priority == b.priority && LexLess(a.stepId, b.stepId))
  }

  predicate DistinctSteps(ms: seq<Mission>) {
    forall i, j :: 0 <= i < j < |ms| ==> ms[i].stepId != ms[j].stepId
  }

  lemma SameStepSameMission(ms: seq<Mission>, a: Mission, b: Mission)
    requires DistinctSteps(ms) && a in ms && b in ms && a.stepId == b.stepId
    ensures a == b
  {
    var i :| 0 <= i < |ms| && ms[i] == a;
    var j :| 0 <= j < |ms| && ms[j] == b;
  }

  /** In the result every mission follows all of its dependencies. */
  lemma DependenciesComeFirst(ms: seq<Mission>, out: seq<Mission>, i: nat, d: string)
    requires OrderOf(ms, out) && Distinct(Ids(ms)) && i < |out| && d in out[i].dependencies
    ensures d in Ids(out)[..i]
  {
    MultisetElements(ms, out);
    DepGraphEntry(ms, out[i]);
    assert Satisfied(DepGraph(ms), Ids(out)[..i], Ids(out)[i]);
  }

  lemma RanksEntry(ms: seq<Mission>, m: Mission)
    requires Distinct(Ids(ms)) && m in ms
    ensures m.missionId in Ranks(ms)
    ensures Ranks(ms)[m.missionId].priority == m.priority && Ranks(ms)[m.missionId].stepId == m.stepId
  {
    RanksKeys(ms);
    var i :| 0 <= i < |ms| && ms[i] == m;
    assert Ids(ms)[i] == m.missionId;
    SameIdSameMission(ms, m, ms[Ranks(ms)[m.missionId].index]);
  }

  /** With distinct step ids, the rank order between two missions does not depend on
      their positions in the input. */
  lemma RankIsBelow(ms: seq<Mission>, a: Mission, b: Mission)
    requires Distinct(Ids(ms)) && DistinctSteps(ms) && a in ms && b in ms && a != b
    ensures ByRank(Ranks(ms))(a.missionId, b.missionId) <==> Below(a, b)
  {
    RanksEntry(ms, a);
    RanksEntry(ms, b);
    if a.stepId == b.stepId {
      SameStepSameMission(ms, a, b);
    }
    var p, q := Ranks(ms)[a.missionId], Ranks(ms)[b.missionId];
    assert p.stepId != q.stepId;
    assert RankBelow(p, q) <==> Below(a, b);
    assert ByRank(Ranks(ms))(a.missionId, b.missionId) <==> RankBelow(p, q);
  }

  lemma RankedBefore(ms: seq<Mission>, out: seq<Mission>, i: nat, j: nat)
    requires OrderOf(ms, out) && Distinct(Ids(ms))
    requires i < j < |out| && forall d :: d in out[j].dependencies ==> d in Ids(out)[..i]
    ensures ByRank(Ranks(ms))(out[i].missionId, out[j].missionId) && out[i] in ms && out[j] in ms && out[i] != out[j]
  {
    MultisetElements(ms, out);
    DepGraphEntry(ms, out[j]);
    var ids := Ids(out);
    assert ids[j] != ids[i] && ids[j] !in ids[..i];
    assert Satisfied(DepGraph(ms), ids[..i], ids[j]);
  }

  /** Each emitted mission is the least, by priority number and then step id, among all
      missions whose dependencies have been emitted already. */
  lemma EachIsLeastReady(ms: seq<Mission>, out: seq<Mission>, i: nat, j: nat)
    requires OrderOf(ms, out) && Distinct(Ids(ms)) && DistinctSteps(ms)
    requires i < j < |out| && forall d :: d in out[j].dependencies ==> d in Ids(out)[..i]
    ensures out[i].priority < out[j].priority || (out[i].priority == out[j].priority && LexLess(out[i].stepId, out[j].stepId))
  {
    RankedBefore(ms, out, i, j);
    RankIsBelow(ms, out[i], out[j]);
  }

  /** Among missions of one priority and step id the order is that of the input. */
  lemma TiesKeepInputOrder(ms: seq<Mission>, out: seq<Mission>, i: nat, j: nat) returns (p: nat, q: nat)
    requires OrderOf(ms, out) && Distinct(Ids(ms))
    requires i < j < |out| && forall d :: d in out[j].dependencies ==> d in Ids(out)[..i]
    ensures p < |ms| && q < |ms| && ms[p] == out[i] && ms[q] == out[j]
    ensures
      || out[i].priority < out[j].priority
      || (out[i].priority == out[j].priority && LexLess(out[i].stepId, out[j].stepId))
      || (out[i].priority == out[j].priority && out[i].stepId == out[j].stepId && p < q)
  {
    RankedBefore(ms, out, i, j);
    p := RankOf(ms, out[i]);
    q := RankOf(ms, out[j]);
    assert RankBelow(Ranks(ms)[out[i].missionId], Ranks(ms)[out[j].missionId]);
  }

  lemma RankOf(ms: seq<Mission>, m: Mission) returns (p: nat)
    requires Distinct(Ids(ms)) && m in ms
    ensures p < |ms| && ms[p] == m && m.missionId in Ranks(ms) && Ranks(ms)[m.missionId] == Rank(m.priority, m.stepId, p)
  {
    RanksEntry(ms, m);
    RanksKeys(ms);
    p := Ranks(ms)[m.missionId].index;
    SameIdSameMission(ms, m, ms[p]);
  }

  lemma SameIdsSameList(ms: seq<Mission>, a: seq<Mission>, b: seq<Mission>)
    requires Distinct(Ids(ms)) && multiset(a) == multiset(ms) == multiset(b) && Ids(a) == Ids(b)
    ensures a == b
  {
    MultisetElements(a, ms);
    MultisetElements(b, ms);
    forall i | 0 <= i < |a| ensures a[i] == b[i] {
      assert Ids(a)[i] == Ids(b)[i];
      SameIdSameMission(ms, a[i], b[i]);
    }
  }

  /** A mission list has at most one order. */
  lemma OrderIsUnique(ms: seq<Mission>, a: seq<Mission>, b: seq<Mission>)
    requires OrderOf(ms, a) && OrderOf(ms, b) && Distinct(Ids(ms))
    ensures a == b
  {
    var g, less := DepGraph(ms), ByRank(Ranks(ms));
    forall x, y | x in g && y in g && x != y && less(x, y) ensures !less(y, x) {
      ByRankIsTotal(ms, x, y);
    }
    CanonicalUnique(g, less, Ids(a), Ids(b));
    SameIdsSameList(ms, a, b);
  }

  lemma SameGraph(ms: seq<Mission>, other: seq<Mission>)
    requires multiset(ms) == multiset(other) && Distinct(Ids(ms)) && Distinct(Ids(other))
    ensures DepGraph(ms) == DepGraph(other)
  {
    MultisetElements(ms, other);
    DepGraphKeys(ms);
    DepGraphKeys(other);
    forall n | n in DepGraph(ms) ensures n in DepGraph(other) && DepGraph(ms)[n] == DepGraph(other)[n] {
      assert Records(ms, n, DepGraph(ms)[n]);
      var m :| m in ms && m.missionId == n && m.dependencies == DepGraph(ms)[n];
      DepGraphEntry(other, m);
    }
    forall n | n in DepGraph(other) ensures n in DepGraph(ms) {
      assert Records(other, n, DepGraph(other)[n]);
      var m :| m in other && m.missionId == n && m.dependencies == DepGraph(other)[n];
      DepGraphEntry(ms, m);
    }
  }

  /** With distinct ids and distinct step ids, rearranging the input does not change the output. */
  lemma OrderIgnoresInputOrder(ms: seq<Mission>, other: seq<Mission>, a: seq<Mission>, b: seq<Mission>)
    requires multiset(ms) == multiset(other)
    requires Distinct(Ids(ms)) && Distinct(Ids(other)) && DistinctSteps(ms) && DistinctSteps(other)
    requires OrderOf(ms, a) && OrderOf(other, b)
    ensures a == b
  {
    MultisetElements(ms, other);
    MultisetElements(other, b);
    SameGraph(ms, other);
    var g, less, ids := DepGraph(ms), ByRank(Ranks(ms)), Ids(b);
    forall i, n | 0 <= i < |ids| && n !in ids[..i] && n != ids[i] && Satisfied(g, ids[..i], n)
      ensures less(ids[i], n)
    {
      DepGraphKeys(ms);
      assert Records(ms, n, g[n]);
      var m :| m in ms && m.missionId == n;
      RankIsBelow(ms, b[i], m);
      RankIsBelow(other, b[i], m);
      assert ByRank(Ranks(other))(ids[i], n);
    }
    OrderIsUnique(ms, a, b);
  }
}
