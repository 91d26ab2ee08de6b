/** The mission record that the builder produces and the queue coordinator accepts,
    and the dependency table of a list of missions. A mission list with distinct ids is
    described by its table: an id leads to one mission and its dependencies. The payload
    has been redacted by then; provider and model come from the approved request, and the
    status of a mission that is built is always pending. */
module Missions {
  import opened Digraph
  import opened Payloads

  /** The builder's structured errors. */
  datatype BuildError =
    | InvalidApprovedRequest
    | InvalidPlan
    | DuplicateStep
    | UnknownDependency
    | SelfDependency
    | CircularDependency
    | UnsafePayload

  datatype Mission = Mission(
    missionId: string,
    projectId: string,
    requestId: string,
    conversationId: string,
    planId: string,
    stepId: string,
    title: string,
    description: string,
    taskType: string,
    providerId: string,
    modelId: string,
    dependencies: seq<string>,
    priority: int,
    payload: Json,
    status: string,
    createdAt: string)

  function Ids(ms: seq<Mission>): (ids: seq<string>)
    ensures |ids| == |ms|
  {
    seq(|ms|, i requires 0 <= i < |ms| => ms[i].missionId)
  }

  function Dependencies(ms: seq<Mission>): (deps: seq<seq<string>>)
    ensures |deps| == |ms|
  {
    seq(|ms|, i requires 0 <= i < |ms| => ms[i].dependencies)
  }

  /** Mission id to dependency ids; a later record with the same id replaces an earlier one. */
  function DepGraph(ms: seq<Mission>): Graph {
    GraphOf(Ids(ms), Dependencies(ms))
  }

  lemma DepGraphSnoc(ms: seq<Mission>, m: Mission)
    ensures DepGraph(ms + [m]) == DepGraph(ms)[m.missionId := m.dependencies]
  {
    GraphOfSnoc(Ids(ms), Dependencies(ms), m.missionId, m.dependencies);
    assert Ids(ms + [m]) == Ids(ms) + [m.missionId] && Dependencies(ms + [m]) == Dependencies(ms) + [m.dependencies];
  }

  /** Some record of `ms` has this id and exactly these dependencies. */
  ghost predicate Records(ms: seq<Mission>, n: Node, deps: seq<Node>) {
    exists m :: m in ms && m.missionId == n && m.dependencies == deps
  }

  lemma DepGraphKeys(ms: seq<Mission>)
    ensures forall n :: n in DepGraph(ms) <==> n in Ids(ms)
    ensures forall n :: n in DepGraph(ms) ==> Records(ms, n, DepGraph(ms)[n])
  {
    GraphOfFacts(Ids(ms), Dependencies(ms));
    forall n | n in DepGraph(ms) ensures Records(ms, n, DepGraph(ms)[n]) {
      assert Paired(Ids(ms), Dependencies(ms), n, DepGraph(ms)[n]);
      var i :| 0 <= i < |ms| && Ids(ms)[i] == n && Dependencies(ms)[i] == DepGraph(ms)[n];
      assert ms[i] in ms;
    }
  }

  lemma SameIdSameMission(ms: seq<Mission>, a: Mission, b: Mission)
    requires Distinct(Ids(ms)) && a in ms && b in ms && a.missionId == b.missionId
    ensures a == b
  {
    var i :| 0 <= i < |ms| && ms[i] == a;
    var j :| 0 <= j < |ms| && ms[j] == b;
    assert Ids(ms)[i] == Ids(ms)[j];
  }

  lemma DepGraphEntry(ms: seq<Mission>, m: Mission)
    requires Distinct(Ids(ms)) && m in ms
    ensures m.missionId in DepGraph(ms) && DepGraph(ms)[m.missionId] == m.dependencies
  {
    var i :| 0 <= i < |ms| && ms[i] == m;
    GraphOfEntry(Ids(ms), Dependencies(ms), i);
  }
}
