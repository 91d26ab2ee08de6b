/** Plan validation and mission building. */
module PlanBuilder {
  import opened Outcomes
  import opened Digraph
  import opened Ordering
  import opened Text
  import opened Payloads
  import opened Missions
  import opened MissionOrdering
  import CycleSearch

  datatype ApprovedRequest = ApprovedRequest(
    requestId: string, projectId: string, conversationId: string,
    providerId: string, modelId: string, taskType: string, createdAt: string)

  datatype Step = Step(
    stepId: string, title: string, description: string, dependencies: seq<string>,
    priority: int, taskType: string, payload: Json)

  datatype Plan = Plan(planId: string, requestId: string, projectId: string, summary: string, steps: seq<Step>)

  const FORBIDDEN_PAYLOAD_KEYS: set<string> :=
    {"shell", "command", "cmd", "bash", "powershell", "subprocess", "executable", "script"}

  const SENSITIVE_KEYS: set<string> :=
    {"password", "passwd", "secret", "token", "api_key", "api-key", "authorization", "bearer", "credential", "private_key"}

  /** `None` accepts every nonblank task type. */
  type TaskTypes = Option<set<string>>

  predicate Supported(taskType: string, types: TaskTypes) {
    NonBlank(taskType) && (types.None? || taskType in types.value)
  }

  predicate RequestValid(req: ApprovedRequest, types: TaskTypes) {
    && NonBlank(req.requestId) && NonBlank(req.projectId) && NonBlank(req.conversationId)
    && NonBlank(req.providerId) && NonBlank(req.modelId)
    && Supported(req.taskType, types)
  }

  /** The checks on one step that look at no other step. */
  predicate StepValid(s: Step, types: TaskTypes) {
    && NonBlank(s.stepId)
    && Supported(s.taskType, types)
    && (forall d :: d in s.dependencies ==> NonBlank(d))
    && PayloadValid(s.payload)
  }

  predicate PayloadValid(payload: Json) {
    payload.Object? && !Mentions(payload, FORBIDDEN_PAYLOAD_KEYS) && JsonSafe(payload)
  }

  function StepIds(steps: seq<Step>): (ids: seq<string>)
    ensures |ids| == |steps|
  {
    seq(|steps|, i requires 0 <= i < |steps| => steps[i].stepId)
  }

  function StepDependencies(steps: seq<Step>): (deps: seq<seq<string>>)
    ensures |deps| == |steps|
  {
    seq(|steps|, i requires 0 <= i < |steps| => steps[i].dependencies)
  }

  /** Step id to dependency list; with distinct ids, one entry per step. */
  function StepGraph(steps: seq<Step>): Graph {
    GraphOf(StepIds(steps), StepDependencies(steps))
  }

  lemma StepGraphFacts(steps: seq<Step>)
    requires Distinct(StepIds(steps))
    ensures StepGraph(steps).Keys == Elements(StepIds(steps))
    ensures forall i :: 0 <= i < |steps| ==>
      steps[i].stepId in StepGraph(steps) && StepGraph(steps)[steps[i].stepId] == steps[i].dependencies
  {
    GraphOfFacts(StepIds(steps), StepDependencies(steps));
    forall i | 0 <= i < |steps|
      ensures steps[i].stepId in StepGraph(steps) && StepGraph(steps)[steps[i].stepId] == steps[i].dependencies
    {
      GraphOfEntry(StepIds(steps), StepDependencies(steps), i);
    }
  }

  predicate HeaderValid(plan: Plan, req: ApprovedRequest) {
    NonBlank(plan.planId) && plan.requestId == req.requestId && plan.projectId == req.projectId && plan.steps != []
  }

  predicate StepsValid(steps: seq<Step>, types: TaskTypes) {
    Distinct(StepIds(steps)) && forall i :: 0 <= i < |steps| ==> StepValid(steps[i], types)
  }

  predicate NoSelfDependency(steps: seq<Step>) {
    forall i :: 0 <= i < |steps| ==> steps[i].stepId !in steps[i].dependencies
  }

  predicate NoUnknownDependency(steps: seq<Step>) {
    forall i, d :: 0 <= i < |steps| && d in steps[i].dependencies ==> d in StepIds(steps)
  }

  ghost predicate PlanValid(plan: Plan, req: ApprovedRequest, types: TaskTypes) {
    && HeaderValid(plan, req)
    && StepsValid(plan.steps, types)
    && NoSelfDependency(plan.steps)
    && NoUnknownDependency(plan.steps)
    && !Cyclic(StepGraph(plan.steps))
  }

  // ----- valid plans in plain terms -----

  /** The steps at these positions depend each on the next, and the last is the first. */
  ghost predicate StepLoop(steps: seq<Step>, p: seq<nat>) {
    && 2 <= |p| && p[0] == p[|p| - 1]
    && (forall k :: 0 <= k < |p| ==> p[k] < |steps|)
    && (forall k, l :: 0 <= k && l == k + 1 && l < |p| ==> steps[p[l]].stepId in steps[p[k]].dependencies)
  }

  lemma LoopExactly(steps: seq<Step>)
    requires Distinct(StepIds(steps)) && NoUnknownDependency(steps)
    ensures Cyclic(StepGraph(steps)) <==> exists p :: StepLoop(steps, p)
  {
    if Cyclic(StepGraph(steps)) {
      var n :| Reaches(StepGraph(steps), n, n);
      var q :| Leads(StepGraph(steps), q, n, n);
      var p := LoopOfPath(steps, q);
    }
    if exists p :: StepLoop(steps, p) {
      var p :| StepLoop(steps, p);
      PathOfLoop(steps, p);
    }
  }

  lemma LoopOfPath(steps: seq<Step>, q: seq<string>) returns (p: seq<nat>)
    requires Distinct(StepIds(steps)) && NoUnknownDependency(steps)
    requires 2 <= |q| && q[0] == q[|q| - 1] && IsPath(StepGraph(steps), q)
    ensures StepLoop(steps, p)
  {
    StepGraphFacts(steps);
    forall k | 0 <= k < |q| ensures q[k] in StepIds(steps) {
      PathNode(steps, q, k);
    }
    p := seq(|q|, k requires 0 <= k < |q| => PlaceOf(steps, q[k]));
    forall k, l | 0 <= k && l == k + 1 && l < |p| ensures steps[p[l]].stepId in steps[p[k]].dependencies {
      assert Edge(StepGraph(steps), q[k], q[l]);
      assert steps[p[k]].stepId == q[k] && steps[p[l]].stepId == q[l];
    }
  }

  lemma PathNode(steps: seq<Step>, q: seq<string>, k: nat)
    requires Distinct(StepIds(steps)) && 2 <= |q| && q[0] == q[|q| - 1] && IsPath(StepGraph(steps), q) && k < |q|
    ensures q[k] in StepIds(steps)
  {
    StepGraphFacts(steps);
    var from := if k == |q| - 1 then 0 else k;
    assert Edge(StepGraph(steps), q[from], q[from + 1]);
    assert q[from] in StepGraph(steps).Keys;
  }

  function PlaceOf(steps: seq<Step>, id: string): (i: nat)
    requires id in StepIds(steps)
    ensures i < |steps| && steps[i].stepId == id
  {
    assert exists i :: 0 <= i < |steps| && StepIds(steps)[i] == id;
    assert steps != [];
    var last := |steps| - 1;
    if steps[last].stepId == id then last
    else
      assert StepIds(steps) == StepIds(steps[..last]) + [steps[last].stepId];
      PlaceOf(steps[..last], id)
  }

  lemma PathOfLoop(steps: seq<Step>, p: seq<nat>)
    requires Distinct(StepIds(steps)) && StepLoop(steps, p)
    ensures Cyclic(StepGraph(steps))
  {
    var q := seq(|p|, k requires 0 <= k < |p| => steps[p[k]].stepId);
    forall k, l | 0 <= k && l == k + 1 && l < |q| ensures Edge(StepGraph(steps), q[k], q[l]) {
      StepEdge(steps, p[k], p[l]);
    }
    assert Leads(StepGraph(steps), q, q[0], q[0]);
    assert Reaches(StepGraph(steps), q[0], q[0]);
  }

  /** A payload is accepted exactly if it is a mapping of JSON values in which no mapping, at
      any depth, has one of the eight forbidden keys in any letter case. */
  lemma PayloadsAcceptedExactly(payload: Json)
    ensures PayloadValid(payload) <==>
      && payload.Object? && JsonSafe(payload)
      && !exists path, i :: HasKeyAt(payload, path, i, {"shell", "command", "cmd", "bash", "powershell", "subprocess", "executable", "script"})
  {
    MentionsExactly(payload, FORBIDDEN_PAYLOAD_KEYS);
  }

  /** A request is accepted exactly if its five identifiers are nonblank and its task type is
      nonblank and, where types are listed, one of them. */
  lemma RequestsAcceptedExactly(req: ApprovedRequest, types: TaskTypes)
    ensures RequestValid(req, types) <==>
      && NonBlank(req.requestId) && NonBlank(req.projectId) && NonBlank(req.conversationId)
      && NonBlank(req.providerId) && NonBlank(req.modelId)
      && NonBlank(req.taskType) && (types.Some? ==> req.taskType in types.value)
  {
  }

  /** What a valid plan is, without the graph: it is for the request, and its steps have
      distinct nonblank ids, known task types and payloads that are accepted, depend only on
      other steps of the plan, and on no loop of them. */
  lemma PlansAcceptedExactly(plan: Plan, req: ApprovedRequest, types: TaskTypes)
    ensures PlanValid(plan, req, types) <==>
      && NonBlank(plan.planId) && plan.requestId == req.requestId && plan.projectId == req.projectId && plan.steps != []
      && (forall i, j :: 0 <= i < j < |plan.steps| ==> plan.steps[i].stepId != plan.steps[j].stepId)
      && (forall i :: 0 <= i < |plan.steps| ==> StepAccepted(plan.steps, i, types))
      && !exists p :: StepLoop(plan.steps, p)
  {
    DistinctIdsExactly(plan.steps);
    if StepsValid(plan.steps, types) && NoUnknownDependency(plan.steps) {
      LoopExactly(plan.steps);
    }
    forall i | 0 <= i < |plan.steps|
      ensures StepAccepted(plan.steps, i, types) <==>
        StepValid(plan.steps[i], types) && plan.steps[i].stepId !in plan.steps[i].dependencies
        && forall d :: d in plan.steps[i].dependencies ==> d in StepIds(plan.steps)
    {
    }
    assert (forall i :: 0 <= i < |plan.steps| ==> StepAccepted(plan.steps, i, types)) ==> NoUnknownDependency(plan.steps);
  }

  predicate StepAccepted(steps: seq<Step>, i: nat, types: TaskTypes)
    requires i < |steps|
  {
    && NonBlank(steps[i].stepId)
    && NonBlank(steps[i].taskType) && (types.Some? ==> steps[i].taskType in types.value)
    && (forall d :: d in steps[i].dependencies ==> NonBlank(d) && d != steps[i].stepId && d in StepIds(steps))
    && PayloadValid(steps[i].payload)
  }

  lemma DistinctIdsExactly(steps: seq<Step>)
    ensures Distinct(StepIds(steps)) <==> forall i, j :: 0 <= i < j < |steps| ==> steps[i].stepId != steps[j].stepId
  {
    assert forall i :: 0 <= i < |steps| ==> StepIds(steps)[i] == steps[i].stepId;
  }

  method ValidateStep(s: Step, types: TaskTypes) returns (fault: Option<BuildError>)
    ensures fault == Some(InvalidPlan) <==> !Supported(s.taskType, types) || exists d :: d in s.dependencies && !NonBlank(d)
    ensures fault.None? <==> fault != Some(InvalidPlan) && PayloadValid(s.payload)
    ensures fault.Some? ==> fault.value in {InvalidPlan, UnsafePayload}
  {
    if !Supported(s.taskType, types) {
      return Some(InvalidPlan);
    }
    for k := 0 to |s.dependencies|
      invariant forall d :: d in s.dependencies[..k] ==> NonBlank(d)
    {
      if !NonBlank(s.dependencies[k]) {
        return Some(InvalidPlan);
      }
    }
    assert s.dependencies[..|s.dependencies|] == s.dependencies;
    if !s.payload.Object? {
      return Some(UnsafePayload);
    }
    var forbidden := ContainsForbiddenKeys(s.payload, FORBIDDEN_PAYLOAD_KEYS);
    if forbidden || !JsonSafe(s.payload) {
      return Some(UnsafePayload);
    }
    return None;
  }

  /** The checks of a step before its payload's. */
  predicate StepTextValid(s: Step, types: TaskTypes) {
    NonBlank(s.stepId) && Supported(s.taskType, types) && forall d :: d in s.dependencies ==> NonBlank(d)
  }

  /** The `i`th step is the first that is wrong, and `fault` is the first thing wrong with it. */
  ghost predicate FirstFault(steps: seq<Step>, types: TaskTypes, i: nat, fault: BuildError) {
    && i < |steps|
    && Distinct(StepIds(steps)[..i]) && (forall k :: 0 <= k < i ==> StepValid(steps[k], types))
    && var s := steps[i];
       var repeated := s.stepId in StepIds(steps)[..i];
       match fault
       case DuplicateStep => NonBlank(s.stepId) && repeated
       case InvalidPlan => !NonBlank(s.stepId) || (!repeated && !StepTextValid(s, types))
       case UnsafePayload => StepTextValid(s, types) && !repeated && !PayloadValid(s.payload)
       case _ => false
  }

  /** Accepts exactly the valid steps, and otherwise reports the first fault of the first
      step that is wrong. */
  method ValidateSteps(steps: seq<Step>, types: TaskTypes) returns (fault: Option<BuildError>)
    ensures fault.None? <==> StepsValid(steps, types)
    ensures fault.Some? ==> exists i :: FirstFault(steps, types, i, fault.value)
  {
    var stepIds: seq<string> := [];
    for i := 0 to |steps|
      invariant stepIds == StepIds(steps)[..i] && Distinct(stepIds)
      invariant forall k :: 0 <= k < i ==> StepValid(steps[k], types)
    {
      var s := steps[i];
      assert StepIds(steps)[i] == s.stepId;
      if !NonBlank(s.stepId) {
        assert FirstFault(steps, types, i, InvalidPlan);
        return Some(InvalidPlan);
      }
      if s.stepId in stepIds {
        assert FirstFault(steps, types, i, DuplicateStep);
        return Some(DuplicateStep);
      }
      stepIds := stepIds + [s.stepId];
      fault := ValidateStep(s, types);
      if fault.Some? {
        assert FirstFault(steps, types, i, fault.value);
        return;
      }
    }
    return None;
  }

  method ValidateDependencies(steps: seq<Step>) returns (fault: Option<BuildError>)
    ensures fault.None? <==> NoSelfDependency(steps) && NoUnknownDependency(steps)
    ensures fault == Some(SelfDependency) ==> !NoSelfDependency(steps)
    ensures fault == Some(UnknownDependency) ==> !NoUnknownDependency(steps)
    ensures fault.Some? ==> fault.value in {SelfDependency, UnknownDependency}
  {
    for i := 0 to |steps|
      invariant forall k :: 0 <= k < i ==> steps[k].stepId !in steps[k].dependencies
      invariant forall k, d :: 0 <= k < i && d in steps[k].dependencies ==> d in StepIds(steps)
    {
      var s := steps[i];
      for n := 0 to |s.dependencies|
        invariant s.stepId !in s.dependencies[..n]
        invariant forall d :: d in s.dependencies[..n] ==> d in StepIds(steps)
      {
        var dep := s.dependencies[n];
        if dep == s.stepId {
          return Some(SelfDependency);
        }
        if dep !in StepIds(steps) {
          return Some(UnknownDependency);
        }
      }
      assert s.dependencies[..|s.dependencies|] == s.dependencies;
    }
    return None;
  }

  /** Accepts exactly the valid plans. Each error says what is wrong, and a cycle is
      reported only when nothing else is. */
  method ValidatePlan(plan: Plan, req: ApprovedRequest, types: TaskTypes) returns (fault: Option<BuildError>)
    ensures fault.None? <==> PlanValid(plan, req, types)
    ensures !HeaderValid(plan, req) ==> fault == Some(InvalidPlan)
    ensures fault.Some? && HeaderValid(plan, req) && !StepsValid(plan.steps, types) ==>
      exists i :: FirstFault(plan.steps, types, i, fault.value)
    ensures fault.Some? && HeaderValid(plan, req) && StepsValid(plan.steps, types) ==>
      fault.value in {SelfDependency, UnknownDependency, CircularDependency}
    ensures fault == Some(SelfDependency) ==> !NoSelfDependency(plan.steps)
    ensures fault == Some(UnknownDependency) ==> !NoUnknownDependency(plan.steps)
    ensures fault == Some(CircularDependency) <==>
      && HeaderValid(plan, req) && StepsValid(plan.steps, types)
      && NoSelfDependency(plan.steps) && NoUnknownDependency(plan.steps)
      && Cyclic(StepGraph(plan.steps))
    ensures fault != Some(InvalidApprovedRequest)
  {
    if !HeaderValid(plan, req) {
      return Some(InvalidPlan);
    }
    fault := ValidateSteps(plan.steps, types);
    if fault.Some? {
      return;
    }
    fault := ValidateDependencies(plan.steps);
    if fault.Some? {
      return;
    }
    StepGraphFacts(plan.steps);
    assert forall k :: k in StepIds(plan.steps) <==> k in Elements(StepIds(plan.steps));
    var cyclic := CycleSearch.BuilderHasCycle(StepGraph(plan.steps), StepIds(plan.steps));
    return if cyclic then Some(CircularDependency) else None;
  }

  /** The generator's first `n` answers are nonempty and different. */
  ghost predicate GeneratesIds(generator: nat -> string, n: nat) {
    && (forall i {:trigger generator(i)} :: 0 <= i < n ==> generator(i) != "")
    && (forall i, j {:trigger generator(i), generator(j)} :: 0 <= i < j < n ==> generator(i) != generator(j))
  }

  /** Asks the generator for one id per step; an empty or repeated id is an error. */
  method GenerateIds(generator: nat -> string, n: nat) returns (ok: bool, ids: seq<string>)
    ensures ok <==> GeneratesIds(generator, n)
    ensures ok ==> |ids| == n && Distinct(ids) && forall i :: 0 <= i < n ==> ids[i] == generator(i) && ids[i] != ""
  {
    ids := [];
    for i := 0 to n
      invariant |ids| == i && Distinct(ids)
      invariant forall k :: 0 <= k < i ==> ids[k] == generator(k) && ids[k] != ""
    {
      var id := generator(i);
      if id == "" || id in ids {
        return false, ids;
      }
      ids := ids + [id];
    }
    return true, ids;
  }

  /** `names` sends the i-th step id to the i-th mission id and has no other keys. */
  ghost predicate NamesSteps(names: map<string, string>, stepIds: seq<string>, ids: seq<string>) {
    && |stepIds| == |ids|
    && (forall k :: k in names ==> k in stepIds)
    && (forall i :: 0 <= i < |stepIds| ==> stepIds[i] in names && names[stepIds[i]] == ids[i])
  }

  method NameSteps(stepIds: seq<string>, ids: seq<string>) returns (names: map<string, string>)
    requires |stepIds| == |ids| && Distinct(stepIds)
    ensures NamesSteps(names, stepIds, ids)
  {
    names := map[];
    for i := 0 to |stepIds|
      invariant forall k :: k in names ==> k in stepIds
      invariant forall j :: 0 <= j < i ==> stepIds[j] in names && names[stepIds[j]] == ids[j]
    {
      names := names[stepIds[i] := ids[i]];
    }
  }

  function Rename(names: map<string, string>, deps: seq<string>): (r: seq<string>)
    ensures |r| == |deps|
  {
    seq(|deps|, i requires 0 <= i < |deps| => if deps[i] in names then names[deps[i]] else "")
  }

  /** The mission a step becomes. Its dependencies are mission ids in lexicographic order. */
  function MissionFor(s: Step, names: map<string, string>, plan: Plan, req: ApprovedRequest, now: string): Mission {
    Mission(
      if s.stepId in names then names[s.stepId] else "",
      req.projectId, req.requestId, req.conversationId, plan.planId, s.stepId, s.title, s.description,
      s.taskType, req.providerId, req.modelId,
      SortBy(LexLess, Rename(names, s.dependencies)),
      s.priority, Redact(s.payload, SENSITIVE_KEYS), "pending", now)
  }

  /** One mission per step, in step order. */
  ghost predicate BuiltFrom(ms: seq<Mission>, plan: Plan, req: ApprovedRequest, names: map<string, string>, now: string) {
    && |ms| == |plan.steps|
    && forall i :: 0 <= i < |ms| ==> ms[i] == MissionFor(plan.steps[i], names, plan, req, now)
  }

  lemma RenamedDependency(names: map<string, string>, deps: seq<string>, d: string)
    requires d in SortBy(LexLess, Rename(names, deps))
    requires forall k :: k in deps ==> k in names
    ensures exists k :: k in deps && k in names && names[k] == d
  {
    MultisetElements(SortBy(LexLess, Rename(names, deps)), Rename(names, deps));
    var i :| 0 <= i < |deps| && Rename(names, deps)[i] == d;
    assert deps[i] in deps;
  }

  lemma BuiltIds(ms: seq<Mission>, plan: Plan, req: ApprovedRequest, names: map<string, string>, ids: seq<string>, now: string)
    requires BuiltFrom(ms, plan, req, names, now) && NamesSteps(names, StepIds(plan.steps), ids)
    ensures Ids(ms) == ids
  {
    forall i | 0 <= i < |ms| ensures Ids(ms)[i] == ids[i] {
      assert StepIds(plan.steps)[i] == plan.steps[i].stepId;
    }
  }

  /** A mission's dependency is the id of the mission built from one of its step's dependencies. */
  lemma BuiltDependency(ms: seq<Mission>, plan: Plan, req: ApprovedRequest, names: map<string, string>,
                        ids: seq<string>, now: string, i: nat, d: string) returns (j: nat)
    requires BuiltFrom(ms, plan, req, names, now) && NamesSteps(names, StepIds(plan.steps), ids)
    requires NoUnknownDependency(plan.steps)
    requires i < |ms| && d in ms[i].dependencies
    ensures j < |ms| && ms[j].missionId == d && plan.steps[j].stepId in plan.steps[i].dependencies
  {
    var deps := plan.steps[i].dependencies;
    forall k | k in deps ensures k in names {
      assert k in StepIds(plan.steps);
    }
    RenamedDependency(names, deps, d);
    var k :| k in deps && k in names && names[k] == d;
    assert k in StepIds(plan.steps);
    j :| 0 <= j < |plan.steps| && StepIds(plan.steps)[j] == k;
    assert ms[j] == MissionFor(plan.steps[j], names, plan, req, now);
  }

  /** The step behind a mission id. */
  function StepBehind(ms: seq<Mission>, n: string): string {
    if ms == [] then ""
    else if ms[|ms| - 1].missionId == n then ms[|ms| - 1].stepId
    else StepBehind(ms[..|ms| - 1], n)
  }

  lemma {:induction false} StepBehindMission(ms: seq<Mission>, i: nat)
    requires Distinct(Ids(ms)) && i < |ms|
    ensures StepBehind(ms, ms[i].missionId) == ms[i].stepId
  {
    if i < |ms| - 1 {
      var rest := ms[..|ms| - 1];
      assert Ids(ms)[i] != Ids(ms)[|ms| - 1];
      forall a, b | 0 <= a < b < |rest| ensures Ids(rest)[a] != Ids(rest)[b] {
        assert Ids(ms)[a] != Ids(ms)[b];
      }
      StepBehindMission(rest, i);
      assert rest[i] == ms[i];
    }
  }

  /** An edge between missions comes from an edge between their steps. */
  lemma EdgeBetweenSteps(ms: seq<Mission>, plan: Plan, req: ApprovedRequest, names: map<string, string>,
                         ids: seq<string>, now: string, u: string, v: string)
    requires BuiltFrom(ms, plan, req, names, now) && NamesSteps(names, StepIds(plan.steps), ids)
    requires NoUnknownDependency(plan.steps) && Distinct(ids) && Distinct(StepIds(plan.steps))
    requires Edge(DepGraph(ms), u, v)
    ensures v in DepGraph(ms)
    ensures Edge(StepGraph(plan.steps), StepBehind(ms, u), StepBehind(ms, v))
  {
    BuiltIds(ms, plan, req, names, ids, now);
    var i := EdgeEntry(ms, u, v);
    var j := BuiltDependency(ms, plan, req, names, ids, now, i, v);
    StepBehindMission(ms, i);
    StepBehindMission(ms, j);
    StepEdge(plan.steps, i, j);
    KnownId(ms, j);
  }

  lemma EdgeEntry(ms: seq<Mission>, u: string, v: string) returns (i: nat)
    requires Distinct(Ids(ms)) && Edge(DepGraph(ms), u, v)
    ensures i < |ms| && ms[i].missionId == u && v in ms[i].dependencies
  {
    DepGraphKeys(ms);
    i :| 0 <= i < |ms| && Ids(ms)[i] == u;
    DepGraphEntry(ms, ms[i]);
  }

  lemma KnownId(ms: seq<Mission>, j: nat)
    requires j < |ms|
    ensures ms[j].missionId in DepGraph(ms)
  {
    DepGraphKeys(ms);
    assert Ids(ms)[j] == ms[j].missionId;
  }

  lemma StepEdge(steps: seq<Step>, i: nat, j: nat)
    requires i < |steps| && j < |steps| && Distinct(StepIds(steps)) && steps[j].stepId in steps[i].dependencies
    ensures Edge(StepGraph(steps), steps[i].stepId, steps[j].stepId)
  {
    StepGraphFacts(steps);
  }

  lemma BuiltAcyclic(ms: seq<Mission>, plan: Plan, req: ApprovedRequest, names: map<string, string>,
                     ids: seq<string>, now: string)
    requires BuiltFrom(ms, plan, req, names, now) && NamesSteps(names, StepIds(plan.steps), ids)
    requires NoUnknownDependency(plan.steps) && Distinct(ids) && Distinct(StepIds(plan.steps))
    requires Cyclic(DepGraph(ms))
    ensures Cyclic(StepGraph(plan.steps))
  {
    var n :| Reaches(DepGraph(ms), n, n);
    var p :| Leads(DepGraph(ms), p, n, n);
    ReachesBetweenSteps(ms, plan, req, names, ids, now, p);
  }

  lemma ReachesBetweenSteps(ms: seq<Mission>, plan: Plan, req: ApprovedRequest, names: map<string, string>,
                            ids: seq<string>, now: string, p: seq<string>)
    requires BuiltFrom(ms, plan, req, names, now) && NamesSteps(names, StepIds(plan.steps), ids)
    requires NoUnknownDependency(plan.steps) && Distinct(ids) && Distinct(StepIds(plan.steps))
    requires 2 <= |p| && IsPath(DepGraph(ms), p)
    ensures Reaches(StepGraph(plan.steps), StepBehind(ms, p[0]), StepBehind(ms, p[|p| - 1]))
  {
    var q := seq(|p|, i requires 0 <= i < |p| => StepBehind(ms, p[i]));
    forall i, j | 0 <= i && j == i + 1 && j < |q| ensures Edge(StepGraph(plan.steps), q[i], q[j]) {
      assert Edge(DepGraph(ms), p[i], p[j]);
      EdgeBetweenSteps(ms, plan, req, names, ids, now, p[i], p[j]);
    }
    assert Leads(StepGraph(plan.steps), q, StepBehind(ms, p[0]), StepBehind(ms, p[|p| - 1]));
  }

  /** The missions built from a valid plan can always be ordered. */
  lemma BuiltOrderable(ms: seq<Mission>, plan: Plan, req: ApprovedRequest, names: map<string, string>,
                       ids: seq<string>, now: string)
    requires BuiltFrom(ms, plan, req, names, now) && NamesSteps(names, StepIds(plan.steps), ids)
    requires NoUnknownDependency(plan.steps) && Distinct(ids) && Distinct(StepIds(plan.steps))
    requires !Cyclic(StepGraph(plan.steps))
    ensures Orderable(ms)
  {
    BuiltIds(ms, plan, req, names, ids, now);
    forall n, d | n in DepGraph(ms) && d in DepGraph(ms)[n] ensures d in DepGraph(ms) {
      assert Edge(DepGraph(ms), n, d);
      EdgeBetweenSteps(ms, plan, req, names, ids, now, n, d);
    }
    if Cyclic(DepGraph(ms)) {
      BuiltAcyclic(ms, plan, req, names, ids, now);
    }
  }

  /** What `BuildMissions` returns, and how it came about. */
  ghost predicate BuildOf(out: seq<Mission>, built: seq<Mission>, plan: Plan, req: ApprovedRequest, types: TaskTypes,
                          names: map<string, string>, ids: seq<string>, now: string) {
    && RequestValid(req, types) && PlanValid(plan, req, types)
    && Distinct(ids) && (forall i :: 0 <= i < |ids| ==> ids[i] != "")
    && NamesSteps(names, StepIds(plan.steps), ids)
    && BuiltFrom(built, plan, req, names, now)
    && OrderOf(built, out)
  }

  /** The mission carries its own step and the request, and its payload is redacted. */
  ghost predicate Carries(m: Mission, s: Step, id: string, plan: Plan, req: ApprovedRequest, now: string) {
    && m.missionId == id && m.stepId == s.stepId
    && m.title == s.title && m.description == s.description && m.taskType == s.taskType && m.priority == s.priority
    && m.planId == plan.planId && m.projectId == req.projectId && m.requestId == req.requestId
    && m.conversationId == req.conversationId && m.providerId == req.providerId && m.modelId == req.modelId
    && m.status == "pending" && m.createdAt == now
    && Hides(s.payload, m.payload) && (Clean(s.payload, SENSITIVE_KEYS) ==> m.payload == s.payload)
  }

  /** The second payload is the first with `[redacted]` under each of the ten sensitive keys,
      at any depth and in any letter case, and nothing else changed. */
  ghost predicate Hides(before: Json, after: Json) {
    && Clean(after, SENSITIVE_KEYS)
    && forall path :: HiddenAt(before, after, path, {"password", "passwd", "secret", "token", "api_key", "api-key",
                                                    "authorization", "bearer", "credential", "private_key"})
  }

  ghost predicate HiddenAt(before: Json, after: Json, path: seq<nat>, names: set<string>) {
    OpenPath(before, path, names) ==>
      && At(before, path).Some? && At(after, path).Some?
      && AlikeButHidden(At(before, path).value, At(after, path).value, names)
  }

  predicate AlikeButHidden(before: Json, after: Json, names: set<string>) {
    && (before.Scalar? || before.Null? || before.Opaque? ==> after == before)
    && (before.List? ==> after.List? && |after.items| == |before.items|)
    && (before.Object? ==> after.Object? && RedactedEntries(before.entries, after.entries, names))
  }

  lemma RedactionHides(payload: Json)
    ensures Hides(payload, Redact(payload, SENSITIVE_KEYS))
  {
    RedactionSound(payload, SENSITIVE_KEYS, FORBIDDEN_PAYLOAD_KEYS);
    SensitiveNames();
    RedactionHidesAll(payload, SENSITIVE_KEYS);
  }

  lemma SensitiveNames()
    ensures SENSITIVE_KEYS == {"password", "passwd", "secret", "token", "api_key", "api-key",
                               "authorization", "bearer", "credential", "private_key"}
    ensures forall name :: name in SENSITIVE_KEYS ==> NoCapitals(name)
  {
  }

  lemma RedactionHidesAll(payload: Json, names: set<string>)
    requires forall name :: name in names ==> NoCapitals(name)
    ensures forall path :: HiddenAt(payload, Redact(payload, names), path, names)
  {
    forall path ensures HiddenAt(payload, Redact(payload, names), path, names) {
      if OpenPath(payload, path, names) {
        RedactedAt(payload, path, names);
      }
    }
  }

  lemma BuiltCarries(ms: seq<Mission>, plan: Plan, req: ApprovedRequest, names: map<string, string>,
                     ids: seq<string>, now: string, i: nat)
    requires BuiltFrom(ms, plan, req, names, now) && NamesSteps(names, StepIds(plan.steps), ids) && i < |ms|
    ensures Carries(ms[i], plan.steps[i], ids[i], plan, req, now)
  {
    assert StepIds(plan.steps)[i] == plan.steps[i].stepId;
    RedactionSound(plan.steps[i].payload, SENSITIVE_KEYS, FORBIDDEN_PAYLOAD_KEYS);
    RedactionHides(plan.steps[i].payload);
  }

  /** A mission depends on another exactly if its step depends on the other's. */
  lemma DependenciesExactly(ms: seq<Mission>, plan: Plan, req: ApprovedRequest, names: map<string, string>,
                            ids: seq<string>, now: string, i: nat, j: nat)
    requires BuiltFrom(ms, plan, req, names, now) && NamesSteps(names, StepIds(plan.steps), ids)
    requires NoUnknownDependency(plan.steps) && Distinct(ids) && i < |ms| && j < |ms|
    ensures ids[j] in ms[i].dependencies <==> plan.steps[j].stepId in plan.steps[i].dependencies
  {
    if plan.steps[j].stepId in plan.steps[i].dependencies {
      DependencyKept(ms, plan, req, names, ids, now, i, j);
    }
    if ids[j] in ms[i].dependencies {
      DependencyMeant(ms, plan, req, names, ids, now, i, j);
    }
  }

  lemma DependencyMeant(ms: seq<Mission>, plan: Plan, req: ApprovedRequest, names: map<string, string>,
                        ids: seq<string>, now: string, i: nat, j: nat)
    requires BuiltFrom(ms, plan, req, names, now) && NamesSteps(names, StepIds(plan.steps), ids)
    requires NoUnknownDependency(plan.steps) && Distinct(ids) && i < |ms| && j < |ms| && ids[j] in ms[i].dependencies
    ensures plan.steps[j].stepId in plan.steps[i].dependencies
  {
    BuiltIds(ms, plan, req, names, ids, now);
    var k := BuiltDependency(ms, plan, req, names, ids, now, i, ids[j]);
    SameIdSamePlace(ms, ids, k, j);
  }

  lemma SameIdSamePlace(ms: seq<Mission>, ids: seq<string>, k: nat, j: nat)
    requires Ids(ms) == ids && Distinct(ids) && k < |ms| && j < |ms| && ms[k].missionId == ids[j]
    ensures k == j
  {
    assert Ids(ms)[k] == ids[k];
  }

  lemma DependencyKept(ms: seq<Mission>, plan: Plan, req: ApprovedRequest, names: map<string, string>,
                       ids: seq<string>, now: string, i: nat, j: nat)
    requires BuiltFrom(ms, plan, req, names, now) && NamesSteps(names, StepIds(plan.steps), ids)
    requires i < |ms| && j < |ms| && plan.steps[j].stepId in plan.steps[i].dependencies
    ensures ids[j] in ms[i].dependencies
  {
    assert StepIds(plan.steps)[j] == plan.steps[j].stepId;
    RenamedKept(names, plan.steps[i].dependencies, plan.steps[j].stepId);
  }

  lemma RenamedKept(names: map<string, string>, deps: seq<string>, k: string)
    requires k in deps && k in names
    ensures names[k] in SortBy(LexLess, Rename(names, deps))
  {
    var n :| 0 <= n < |deps| && deps[n] == k;
    assert Rename(names, deps)[n] == names[k];
    MultisetElements(SortBy(LexLess, Rename(names, deps)), Rename(names, deps));
  }

  /** A mission lists as many dependencies as its step, in lexicographic order. */
  lemma DependenciesSorted(ms: seq<Mission>, plan: Plan, req: ApprovedRequest, names: map<string, string>, now: string, i: nat)
    requires BuiltFrom(ms, plan, req, names, now) && i < |ms|
    ensures |ms[i].dependencies| == |plan.steps[i].dependencies| && SortedBy(LexLess, ms[i].dependencies)
  {
    var renamed := Rename(names, plan.steps[i].dependencies);
    LexIsKeyOrder(Elements(renamed));
    SortBySorted(LexLess, renamed);
    SameSize(SortBy(LexLess, renamed), renamed);
  }

  /** Mission `i` depends on mission `j` exactly as their steps do. */
  ghost predicate DependsAlike(built: seq<Mission>, steps: seq<Step>, ids: seq<string>, i: nat, j: nat)
    requires i < |built| == |steps| == |ids| && j < |built|
  {
    ids[j] in built[i].dependencies <==> steps[j].stepId in steps[i].dependencies
  }

  /** Where mission `i` stands in the result, mission `j` has been listed. */
  ghost predicate Follows(out: seq<Mission>, ids: seq<string>, i: nat, j: nat)
    requires i < |ids| && j < |ids|
  {
    forall a :: 0 <= a < |out| && out[a].missionId == ids[i] ==> ids[j] in Ids(out)[..a]
  }

  ghost predicate DependenciesListed(m: Mission, s: Step) {
    |m.dependencies| == |s.dependencies| && SortedBy(LexLess, m.dependencies)
  }

  /** The result in plain terms: one mission for each step, in some order, that carries its
      step and depends on the missions of exactly the steps its own depends on, and each
      after those it depends on. */
  ghost predicate SpelledOut(out: seq<Mission>, built: seq<Mission>, plan: Plan, req: ApprovedRequest, ids: seq<string>, now: string) {
    && multiset(out) == multiset(built)
    && |built| == |plan.steps| == |ids|
    && (forall i :: 0 <= i < |built| ==> Carries(built[i], plan.steps[i], ids[i], plan, req, now))
    && (forall i :: 0 <= i < |built| ==> DependenciesListed(built[i], plan.steps[i]))
    && (forall i, j :: 0 <= i < |built| && 0 <= j < |built| ==> DependsAlike(built, plan.steps, ids, i, j))
    && (forall i, j :: 0 <= i < |built| && 0 <= j < |built| && plan.steps[j].stepId in plan.steps[i].dependencies ==>
          Follows(out, ids, i, j))
  }

  lemma BuiltInOrder(out: seq<Mission>, built: seq<Mission>, plan: Plan, req: ApprovedRequest, types: TaskTypes,
                     names: map<string, string>, ids: seq<string>, now: string, i: nat, j: nat)
    requires BuildOf(out, built, plan, req, types, names, ids, now) && i < |built| && j < |built|
    requires plan.steps[j].stepId in plan.steps[i].dependencies
    ensures Follows(out, ids, i, j)
  {
    BuiltIds(built, plan, req, names, ids, now);
    MultisetElements(built, out);
    DependenciesExactly(built, plan, req, names, ids, now, i, j);
    forall a | 0 <= a < |out| && out[a].missionId == ids[i] ensures ids[j] in Ids(out)[..a] {
      assert Ids(built)[i] == ids[i] && built[i] in built;
      SameIdSameMission(built, out[a], built[i]);
      DependenciesComeFirst(built, out, a, ids[j]);
    }
  }

  /** Of two missions of which the later was ready already, the earlier has the lower
      priority number or, with the same, the lower step id. */
  lemma BuiltLeastFirst(out: seq<Mission>, built: seq<Mission>, plan: Plan, req: ApprovedRequest, types: TaskTypes,
                        names: map<string, string>, ids: seq<string>, now: string, a: nat, b: nat)
    requires BuildOf(out, built, plan, req, types, names, ids, now)
    requires a < b < |out| && forall d :: d in out[b].dependencies ==> d in Ids(out)[..a]
    ensures out[a].priority < out[b].priority || (out[a].priority == out[b].priority && LexLess(out[a].stepId, out[b].stepId))
  {
    BuiltIds(built, plan, req, names, ids, now);
    forall i, j | 0 <= i < j < |built| ensures built[i].stepId != built[j].stepId {
      assert StepIds(plan.steps)[i] != StepIds(plan.steps)[j];
    }
    EachIsLeastReady(built, out, a, b);
  }

  /** Builds and orders the missions of a plan. It succeeds exactly when the request and
      the plan are valid and the id generator cooperates; the ordering step then never
      reports a cycle of its own. */
  method BuildMissions(plan: Plan, req: ApprovedRequest, types: TaskTypes, generator: nat -> string, now: string)
    returns (r: Result<seq<Mission>, BuildError>, ghost built: seq<Mission>, ghost names: map<string, string>, ghost ids: seq<string>)
    ensures r.Ok? <==> RequestValid(req, types) && PlanValid(plan, req, types) && GeneratesIds(generator, |plan.steps|)
    ensures r.Err? && r.error == CircularDependency ==> Cyclic(StepGraph(plan.steps))
    ensures r.Ok? ==> BuildOf(r.value, built, plan, req, types, names, ids, now)
    ensures r.Ok? ==> |ids| == |plan.steps| && forall i :: 0 <= i < |ids| ==> ids[i] == generator(i)
    ensures r.Ok? ==> SpelledOut(r.value, built, plan, req, ids, now)
  {
    built, names, ids := [], map[], [];
    if !RequestValid(req, types) {
      return Err(InvalidApprovedRequest), built, names, ids;
    }
    var fault := ValidatePlan(plan, req, types);
    if fault.Some? {
      return Err(fault.value), built, names, ids;
    }
    var ok, generated := GenerateIds(generator, |plan.steps|);
    if !ok {
      return Err(InvalidPlan), built, names, ids;
    }
    var missions;
    missions, built, names := BuildNamed(plan, req, types, generated, now);
    ids := generated;
    r := Ok(missions);
  }

  /** One mission for each step of a valid plan, under these ids, and then their order. */
  method BuildNamed(plan: Plan, req: ApprovedRequest, types: TaskTypes, ids: seq<string>, now: string)
    returns (out: seq<Mission>, ghost built: seq<Mission>, ghost names: map<string, string>)
    requires RequestValid(req, types) && PlanValid(plan, req, types)
    requires |ids| == |plan.steps| && Distinct(ids) && forall i :: 0 <= i < |ids| ==> ids[i] != ""
    ensures BuildOf(out, built, plan, req, types, names, ids, now)
    ensures SpelledOut(out, built, plan, req, ids, now)
  {
    var stepToMission := NameSteps(StepIds(plan.steps), ids);
    var missions := seq(|plan.steps|, i requires 0 <= i < |plan.steps| => MissionFor(plan.steps[i], stepToMission, plan, req, now));
    built, names := missions, stepToMission;
    BuiltOrderable(missions, plan, req, stepToMission, ids, now);
    var ordered := OrderMissions(missions);
    out := ordered.value;
    BuildSpelledOut(out, built, plan, req, types, names, ids, now);
  }

  lemma BuildSpelledOut(out: seq<Mission>, built: seq<Mission>, plan: Plan, req: ApprovedRequest, types: TaskTypes,
                        names: map<string, string>, ids: seq<string>, now: string)
    requires BuildOf(out, built, plan, req, types, names, ids, now)
    ensures SpelledOut(out, built, plan, req, ids, now)
  {
    forall i | 0 <= i < |built| ensures Carries(built[i], plan.steps[i], ids[i], plan, req, now) {
      BuiltCarries(built, plan, req, names, ids, now, i);
    }
    forall i | 0 <= i < |built| ensures DependenciesListed(built[i], plan.steps[i]) {
      DependenciesSorted(built, plan, req, names, now, i);
    }
    forall i, j | 0 <= i < |built| && 0 <= j < |built| ensures DependsAlike(built, plan.steps, ids, i, j) {
      DependenciesExactly(built, plan, req, names, ids, now, i, j);
    }
    forall i, j | 0 <= i < |built| && 0 <= j < |built| && plan.steps[j].stepId in plan.steps[i].dependencies
      ensures Follows(out, ids, i, j)
    {
      BuiltInOrder(out, built, plan, req, types, names, ids, now, i, j);
    }
  }
}
