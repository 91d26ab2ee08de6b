/** The planner → builder → queue flow, and the theorem that one stage's output always
    satisfies the next stage's check. */
module PlannerQueueFlow {
  import opened Outcomes
  import opened Digraph
  import opened Ordering
  import opened Text
  import opened Missions
  import opened MissionOrdering
  import B = PlanBuilder
  import Q = QueueEnqueue
  import Payloads

  /** Every mission list the builder returns passes the queue coordinator's own check,
      for the same project and any nonblank queue reference. */
  lemma BuiltMissionsAreEnqueueable(out: seq<Mission>, built: seq<Mission>, plan: B.Plan, req: B.ApprovedRequest,
                                    types: B.TaskTypes, names: map<string, string>, ids: seq<string>, now: string,
                                    queueReference: string)
    requires B.BuildOf(out, built, plan, req, types, names, ids, now)
    requires NonBlank(queueReference)
    ensures Q.Enqueueable(req.projectId, queueReference, out)
    ensures multiset(Ids(out)) == multiset(ids)
  {
    B.BuiltIds(built, plan, req, names, ids, now);
    MultisetElements(built, out);
    BuiltRecords(out, built, plan, req, names, ids, now);
    forall i, d | 0 <= i < |out| && d in out[i].dependencies ensures d in Ids(out)[..i] {
      DependenciesComeFirst(built, out, i, d);
    }
    SameElementsPermute(Ids(out), ids);
  }

  lemma BuiltRecords(out: seq<Mission>, built: seq<Mission>, plan: B.Plan, req: B.ApprovedRequest,
                     names: map<string, string>, ids: seq<string>, now: string)
    requires B.BuiltFrom(built, plan, req, names, now) && B.NamesSteps(names, B.StepIds(plan.steps), ids)
    requires OrderOf(built, out) && Distinct(ids) && forall i :: 0 <= i < |ids| ==> ids[i] != ""
    ensures Q.RecordsValid(req.projectId, out)
    ensures Elements(Ids(out)) == Elements(ids)
  {
    B.BuiltIds(built, plan, req, names, ids, now);
    MultisetElements(built, out);
    forall i | 0 <= i < |out|
      ensures out[i].missionId != "" && out[i].projectId == req.projectId && out[i].status == "pending"
    {
      assert out[i] in built;
      var k :| 0 <= k < |built| && built[k] == out[i];
      assert Ids(built)[k] == ids[k];
    }
    SameIdElements(out, built);
  }

  lemma SameIdElements(a: seq<Mission>, b: seq<Mission>)
    requires forall m :: m in a <==> m in b
    ensures Elements(Ids(a)) == Elements(Ids(b))
  {
    IdsInto(a, b);
    IdsInto(b, a);
  }

  lemma IdsInto(a: seq<Mission>, b: seq<Mission>)
    requires forall m :: m in a ==> m in b
    ensures Elements(Ids(a)) <= Elements(Ids(b))
  {
    forall n | n in Ids(a) ensures n in Ids(b) {
      var i :| 0 <= i < |a| && Ids(a)[i] == n;
      assert a[i] in b;
      var j :| 0 <= j < |b| && b[j] == a[i];
      assert Ids(b)[j] == n;
    }
  }

  datatype ProjectContext = ProjectContext(
    projectId: Option<string>, repositoryRoot: string, defaultBranch: string,
    projectType: string, policyProfile: string, queueReference: string)

  datatype FlowRequest = FlowRequest(
    accepted: bool, requestId: string, projectId: string, conversationId: string, providerId: string,
    modelId: string, taskType: string, userMessage: string, createdAt: string, context: ProjectContext)

  predicate ContextValid(c: ProjectContext, projectId: string) {
    && NonBlank(c.repositoryRoot) && NonBlank(c.defaultBranch) && NonBlank(c.projectType)
    && NonBlank(c.policyProfile) && NonBlank(c.queueReference)
    && (c.projectId.Some? ==> NonBlank(c.projectId.value) && c.projectId.value == projectId)
  }

  predicate FlowRequestValid(r: FlowRequest) {
    && r.accepted
    && NonBlank(r.requestId) && NonBlank(r.projectId) && NonBlank(r.conversationId)
    && NonBlank(r.providerId) && NonBlank(r.modelId) && NonBlank(r.taskType) && NonBlank(r.userMessage)
    && ContextValid(r.context, r.projectId)
  }

  /** Every text of a request and its context that must not be blank. */
  function TextsOf(r: FlowRequest): set<string> {
    {r.requestId, r.projectId, r.conversationId, r.providerId, r.modelId, r.taskType, r.userMessage,
     r.context.repositoryRoot, r.context.defaultBranch, r.context.projectType, r.context.policyProfile, r.context.queueReference}
  }

  /** A request is accepted by the flow exactly if it was approved, every text of it and of its
      context is nonblank, and a project id in the context is the request's own. */
  lemma FlowRequestsExactly(r: FlowRequest)
    ensures FlowRequestValid(r) <==>
      && r.accepted
      && (forall text :: text in TextsOf(r) ==> NonBlank(text))
      && (r.context.projectId.Some? ==> r.context.projectId.value == r.projectId)
  {
  }

  /** The normalised fields the builder owns: every identifier stripped. */
  function BuilderRequest(r: FlowRequest): B.ApprovedRequest {
    B.ApprovedRequest(Strip(r.requestId), Strip(r.projectId), Strip(r.conversationId),
                      Strip(r.providerId), Strip(r.modelId), Strip(r.taskType), r.createdAt)
  }

  /** A valid flow request gives the builder a valid request, as far as task types allow. */
  lemma NormalisedRequestValid(r: FlowRequest, types: B.TaskTypes)
    requires FlowRequestValid(r)
    ensures B.RequestValid(BuilderRequest(r), types) <==> B.Supported(Strip(r.taskType), types)
  {
    StripFacts(r.requestId);
    StripFacts(r.projectId);
    StripFacts(r.conversationId);
    StripFacts(r.providerId);
    StripFacts(r.modelId);
  }

  datatype PlannerReply = PlannerRaised | EmptyPlan | Planned(plan: B.Plan)

  datatype Blocked =
    | NotBlocked
    | InvalidApprovedRequest
    | PlannerFailed
    | InvalidPlan
    | UnsupportedQueueInterface
    | QueueFailed
    | PartialEnqueue
    | DependencyFailed

  datatype FlowResult = FlowResult(accepted: bool, missionIds: seq<string>, blocked: Blocked)

  predicate IdsNonBlank(ms: seq<Mission>) {
    forall m :: m in ms ==> NonBlank(m.missionId)
  }

  /** The generator's first `n` answers are nonblank. */
  ghost predicate AnswersNonBlank(generator: nat -> string, n: nat) {
    forall i {:trigger generator(i)} :: 0 <= i < n ==> NonBlank(generator(i))
  }

  /** The builder lets any nonempty id through, the flow only nonblank ones, so a built
      plan passes the flow's own check exactly when every generated id is nonblank. */
  lemma FlowCheckExact(out: seq<Mission>, built: seq<Mission>, plan: B.Plan, req: B.ApprovedRequest,
                       types: B.TaskTypes, names: map<string, string>, ids: seq<string>, now: string)
    requires B.BuildOf(out, built, plan, req, types, names, ids, now)
    ensures IdsNonBlank(out) <==> forall i :: 0 <= i < |ids| ==> NonBlank(ids[i])
  {
    B.BuiltIds(built, plan, req, names, ids, now);
    MultisetElements(built, out);
    forall i | 0 <= i < |ids| ensures built[i] in out && built[i].missionId == ids[i] {
      assert Ids(built)[i] == ids[i];
    }
    forall m | m in out ensures exists i :: 0 <= i < |ids| && ids[i] == m.missionId {
      assert m in built;
      var i :| 0 <= i < |built| && built[i] == m;
      assert Ids(built)[i] == ids[i];
    }
  }

  method CheckIds(ms: seq<Mission>) returns (ok: bool, missionIds: seq<string>)
    ensures ok <==> IdsNonBlank(ms)
    ensures ok ==> missionIds == Ids(ms)
  {
    missionIds := [];
    for i := 0 to |ms|
      invariant missionIds == Ids(ms)[..i]
      invariant forall k :: 0 <= k < i ==> NonBlank(ms[k].missionId)
    {
      if !NonBlank(ms[i].missionId) {
        assert ms[i] in ms;
        return false, missionIds;
      }
      missionIds := missionIds + [ms[i].missionId];
      assert Ids(ms)[..i + 1] == Ids(ms)[..i] + [ms[i].missionId];
    }
    assert Ids(ms)[..|ms|] == Ids(ms);
    return true, missionIds;
  }

  /** The missions of a plan, under the generator's ids. */
  ghost predicate BuiltFor(ms: seq<Mission>, plan: B.Plan, req: B.ApprovedRequest, generator: nat -> string, now: string) {
    exists built, ids :: B.SpelledOut(ms, built, plan, req, ids, now) && NamedBy(ids, generator)
  }

  ghost predicate NamedBy(ids: seq<string>, generator: nat -> string) {
    forall i :: 0 <= i < |ids| ==> ids[i] == generator(i)
  }

  /** Every one of them belongs to the request. */
  predicate BelongTo(ms: seq<Mission>, projectId: string, requestId: string, conversationId: string, providerId: string, modelId: string) {
    forall m :: m in ms ==>
      && m.projectId == projectId && m.requestId == requestId && m.conversationId == conversationId
      && m.providerId == providerId && m.modelId == modelId && m.status == "pending"
  }

  lemma BuiltBelong(ms: seq<Mission>, plan: B.Plan, req: B.ApprovedRequest, generator: nat -> string, now: string)
    requires BuiltFor(ms, plan, req, generator, now)
    ensures BelongTo(ms, req.projectId, req.requestId, req.conversationId, req.providerId, req.modelId)
    ensures |ms| == |plan.steps|
  {
    var built, ids :| B.SpelledOut(ms, built, plan, req, ids, now) && NamedBy(ids, generator);
    MultisetElements(ms, built);
    assert |multiset(ms)| == |ms| && |multiset(built)| == |built|;
    forall m | m in ms ensures m.projectId == req.projectId && m.requestId == req.requestId
      && m.conversationId == req.conversationId && m.providerId == req.providerId && m.modelId == req.modelId && m.status == "pending"
    {
      assert m in built;
      var i :| 0 <= i < |built| && built[i] == m;
      assert B.Carries(built[i], plan.steps[i], ids[i], plan, req, now);
    }
  }

  /** The builder as the flow calls it; whatever it returns passes the queue coordinator's check. */
  method ValidateAndBuild(plan: B.Plan, req: B.ApprovedRequest, types: B.TaskTypes, generator: nat -> string, now: string,
                          ghost queueReference: string)
    returns (r: Result<seq<Mission>, BuildError>)
    requires NonBlank(queueReference)
    ensures r.Ok? <==>
      B.RequestValid(req, types) && B.PlanValid(plan, req, types) && B.GeneratesIds(generator, |plan.steps|)
    ensures r.Ok? ==> Q.Enqueueable(req.projectId, queueReference, r.value)
    ensures r.Ok? ==> (IdsNonBlank(r.value) <==> AnswersNonBlank(generator, |plan.steps|))
    ensures r.Ok? ==> BuiltFor(r.value, plan, req, generator, now)
  {
    ghost var built, names, ids;
    r, built, names, ids := B.BuildMissions(plan, req, types, generator, now);
    if r.Ok? {
      BuiltPasses(r.value, built, plan, req, types, names, ids, generator, now, queueReference);
    }
  }

  lemma BuiltPasses(out: seq<Mission>, built: seq<Mission>, plan: B.Plan, req: B.ApprovedRequest, types: B.TaskTypes,
                    names: map<string, string>, ids: seq<string>, generator: nat -> string, now: string, queueReference: string)
    requires B.BuildOf(out, built, plan, req, types, names, ids, now) && B.SpelledOut(out, built, plan, req, ids, now)
    requires NonBlank(queueReference) && |ids| == |plan.steps| && NamedBy(ids, generator)
    ensures Q.Enqueueable(req.projectId, queueReference, out)
    ensures IdsNonBlank(out) <==> AnswersNonBlank(generator, |plan.steps|)
    ensures BuiltFor(out, plan, req, generator, now)
  {
    FlowCheckExact(out, built, plan, req, types, names, ids, now);
    assert forall i {:trigger ids[i]} :: 0 <= i < |ids| ==> ids[i] == generator(i);
    BuiltMissionsAreEnqueueable(out, built, plan, req, types, names, ids, now, queueReference);
  }

  function BlockedBy(reason: Q.Reason): Blocked {
    match reason
    case UnsupportedQueueInterface => UnsupportedQueueInterface
    case QueueFailed => QueueFailed
    case PartialEnqueue => PartialEnqueue
    case _ => DependencyFailed
  }

  /** Each way a request ends, and when exactly. */
  ghost predicate WhyBlocked(blocked: Blocked, r: FlowRequest, types: B.TaskTypes, planner: PlannerReply, generator: nat -> string,
                             built: Option<seq<Mission>>, queue: Q.MissionQueue, call: nat) {
    var named := built.Some? && planner.Planned? && AnswersNonBlank(generator, |planner.plan.steps|);
    var handed := named && queue.projectId == Strip(r.projectId);
    && (blocked == Blocked.InvalidApprovedRequest <==> !FlowRequestValid(r))
    && (blocked == PlannerFailed <==> FlowRequestValid(r) && planner.PlannerRaised?)
    && (blocked == Blocked.InvalidPlan <==> FlowRequestValid(r) && !planner.PlannerRaised? && !named)
    && (blocked == Blocked.DependencyFailed <==> named && !handed)
    && (blocked == Blocked.UnsupportedQueueInterface <==> handed && !queue.hasBatch && !queue.hasSingle)
    && (blocked == Blocked.PartialEnqueue <==>
          handed && !queue.hasBatch && queue.hasSingle && 0 < |Q.Receives(queue, call, built.value)| < |built.value|)
    && (blocked == Blocked.NotBlocked <==> handed && Q.Takes(queue, call, built.value))
  }

  class FlowCoordinator {
    const types: B.TaskTypes
    var processed: nat
    var accepted: nat
    var rejected: nat

    constructor (types: B.TaskTypes)
      ensures this.types == types && processed == accepted == rejected == 0
    {
      this.types := types;
      processed, accepted, rejected := 0, 0, 0;
    }

    ghost predicate Valid()
      reads this
    {
      processed == accepted + rejected
    }

    /** One request through planner, builder and queue. `built` is what the builder
        answered, if it was reached. Success is decided by the request, the plan, the id
        generator and the queue alone: enqueue validation never refuses a built plan. */
    method Process(r: FlowRequest, planner: PlannerReply, generator: nat -> string, now: string, queue: Q.MissionQueue)
      returns (result: FlowResult, ghost built: Option<seq<Mission>>)
      requires Valid()
      modifies this, queue
      ensures Valid() && processed == old(processed) + 1
      ensures accepted == old(accepted) + if result.accepted then 1 else 0
      ensures built.Some? <==>
        && FlowRequestValid(r) && B.Supported(Strip(r.taskType), types) && planner.Planned?
        && B.PlanValid(planner.plan, BuilderRequest(r), types) && B.GeneratesIds(generator, |planner.plan.steps|)
      ensures result.accepted <==>
        && built.Some? && AnswersNonBlank(generator, |planner.plan.steps|) && queue.projectId == Strip(r.projectId)
        && Q.Takes(queue, old(queue.calls), built.value)
      ensures built.Some? ==> Q.Enqueueable(Strip(r.projectId), r.context.queueReference, built.value)
      ensures built.Some? ==> BuiltFor(built.value, planner.plan, BuilderRequest(r), generator, now)
      ensures built.Some? ==>
        && |built.value| == |planner.plan.steps|
        && BelongTo(built.value, Strip(r.projectId), Strip(r.requestId), Strip(r.conversationId), Strip(r.providerId), Strip(r.modelId))
      ensures WhyBlocked(result.blocked, r, types, planner, generator, built, queue, old(queue.calls))
      ensures result.accepted ==> result.missionIds == Ids(built.value) && queue.items == old(queue.items) + built.value
      ensures !result.accepted ==> result.missionIds == [] && result.blocked != NotBlocked
      ensures queue.items == old(queue.items) + (
        if built.Some? && AnswersNonBlank(generator, |planner.plan.steps|) && queue.projectId == Strip(r.projectId)
        then Q.Receives(queue, old(queue.calls), built.value) else [])
      ensures !result.accepted && result.blocked != PartialEnqueue && result.blocked != QueueFailed ==>
        queue.items == old(queue.items)
      ensures result.blocked == QueueFailed ==>
        && built.Some?
        && queue.items == old(queue.items) + if queue.hasBatch && queue.batchReply(built.value).BatchReturned? then built.value else []
      ensures result.blocked == DependencyFailed ==> queue.projectId != Strip(r.projectId)
      ensures result.blocked == PartialEnqueue ==>
        built.Some? && exists k :: 0 < k < |built.value| && queue.items == old(queue.items) + built.value[..k]
    {
      processed := processed + 1;
      result, built := Decide(r, planner, generator, now, queue);
      if result.accepted {
        accepted := accepted + 1;
      } else {
        rejected := rejected + 1;
      }
    }

    /** The stages of a request, up to the first that blocks it. */
    method Decide(r: FlowRequest, planner: PlannerReply, generator: nat -> string, now: string, queue: Q.MissionQueue)
      returns (result: FlowResult, ghost built: Option<seq<Mission>>)
      modifies queue
      ensures built.Some? <==>
        && FlowRequestValid(r) && B.Supported(Strip(r.taskType), types) && planner.Planned?
        && B.PlanValid(planner.plan, BuilderRequest(r), types) && B.GeneratesIds(generator, |planner.plan.steps|)
      ensures result.accepted <==>
        && built.Some? && AnswersNonBlank(generator, |planner.plan.steps|) && queue.projectId == Strip(r.projectId)
        && Q.Takes(queue, old(queue.calls), built.value)
      ensures built.Some? ==> Q.Enqueueable(Strip(r.projectId), r.context.queueReference, built.value)
      ensures built.Some? ==> BuiltFor(built.value, planner.plan, BuilderRequest(r), generator, now)
      ensures built.Some? ==>
        && |built.value| == |planner.plan.steps|
        && BelongTo(built.value, Strip(r.projectId), Strip(r.requestId), Strip(r.conversationId), Strip(r.providerId), Strip(r.modelId))
      ensures WhyBlocked(result.blocked, r, types, planner, generator, built, queue, old(queue.calls))
      ensures result.accepted ==> result.missionIds == Ids(built.value) && queue.items == old(queue.items) + built.value
      ensures !result.accepted ==> result.missionIds == [] && result.blocked != NotBlocked
      ensures queue.items == old(queue.items) + (
        if built.Some? && AnswersNonBlank(generator, |planner.plan.steps|) && queue.projectId == Strip(r.projectId)
        then Q.Receives(queue, old(queue.calls), built.value) else [])
      ensures !result.accepted && result.blocked != PartialEnqueue && result.blocked != QueueFailed ==>
        queue.items == old(queue.items)
      ensures result.blocked == QueueFailed ==>
        && built.Some?
        && queue.items == old(queue.items) + if queue.hasBatch && queue.batchReply(built.value).BatchReturned? then built.value else []
      ensures result.blocked == DependencyFailed ==> queue.projectId != Strip(r.projectId)
      ensures result.blocked == PartialEnqueue ==>
        built.Some? && exists k :: 0 < k < |built.value| && queue.items == old(queue.items) + built.value[..k]
    {
      built := None;
      if !FlowRequestValid(r) {
        return FlowResult(false, [], Blocked.InvalidApprovedRequest), built;
      }
      if !planner.Planned? {
        return FlowResult(false, [], if planner.PlannerRaised? then PlannerFailed else Blocked.InvalidPlan), built;
      }
      NormalisedRequestValid(r, types);
      var req := BuilderRequest(r);
      var missions := ValidateAndBuild(planner.plan, req, types, generator, now, r.context.queueReference);
      if missions.Err? {
        return FlowResult(false, [], Blocked.InvalidPlan), built;
      }
      built := Some(missions.value);
      BuiltBelong(missions.value, planner.plan, req, generator, now);
      result := HandOver(req.projectId, r.context.queueReference, missions.value, queue);
    }

    /** Hands the built missions over to the queue. */
    method HandOver(projectId: string, queueReference: string, missions: seq<Mission>, queue: Q.MissionQueue)
      returns (result: FlowResult)
      requires Q.Enqueueable(projectId, queueReference, missions)
      modifies queue
      ensures result.accepted <==>
        && IdsNonBlank(missions) && queue.projectId == projectId
        && Q.Takes(queue, old(queue.calls), missions)
      ensures result.accepted ==> result.missionIds == Ids(missions) && queue.items == old(queue.items) + missions
      ensures !result.accepted ==> result.missionIds == [] && result.blocked != NotBlocked
      ensures queue.items == old(queue.items) + (
        if IdsNonBlank(missions) && queue.projectId == projectId then Q.Receives(queue, old(queue.calls), missions) else [])
      ensures !result.accepted && result.blocked != PartialEnqueue && result.blocked != QueueFailed ==>
        queue.items == old(queue.items)
      ensures result.blocked == QueueFailed ==>
        queue.items == old(queue.items) + if queue.hasBatch && queue.batchReply(missions).BatchReturned? then missions else []
      ensures result.blocked in {Blocked.NotBlocked, Blocked.InvalidPlan, Blocked.DependencyFailed, Blocked.UnsupportedQueueInterface,
                                 Blocked.QueueFailed, Blocked.PartialEnqueue}
      ensures result.accepted <==> result.blocked == Blocked.NotBlocked
      ensures result.blocked == Blocked.InvalidPlan <==> !IdsNonBlank(missions)
      ensures result.blocked == Blocked.DependencyFailed <==> IdsNonBlank(missions) && queue.projectId != projectId
      ensures result.blocked == Blocked.UnsupportedQueueInterface <==>
        IdsNonBlank(missions) && queue.projectId == projectId && !queue.hasBatch && !queue.hasSingle
      ensures result.blocked == Blocked.PartialEnqueue <==>
        && IdsNonBlank(missions) && queue.projectId == projectId && !queue.hasBatch && queue.hasSingle
        && 0 < |Q.Receives(queue, old(queue.calls), missions)| < |missions|
      ensures result.blocked == PartialEnqueue ==>
        exists k :: 0 < k < |missions| && queue.items == old(queue.items) + missions[..k]
    {
      var ok, missionIds := CheckIds(missions);
      if !ok {
        return FlowResult(false, [], Blocked.InvalidPlan);
      }
      var enqueued := Q.Enqueue(projectId, queueReference, missions, queue);
      if !enqueued.accepted {
        return FlowResult(false, [], BlockedBy(enqueued.reason));
      }
      return FlowResult(true, missionIds, NotBlocked);
    }
  }

  const FIELDS := ProjectContext(None, "x", "x", "x", "x", "x")
  const REQUEST := FlowRequest(true, "x", "x", "x", "x", "x", "x", "x", "x", FIELDS)
  const ONE_STEP := B.Plan("x", "x", "x", "", [B.Step("x", "", "", [], 0, "x", Payloads.Object([]))])

  const SPACES: nat -> string := n => " "

  lemma OneLetter()
    ensures NonBlank("x") && Strip("x") == "x" && !NonBlank(" ")
  {
    assert !IsWhitespace("x"[0]);
  }

  lemma CycleHasEdge(g: Graph) returns (u: Node, v: Node)
    requires Cyclic(g)
    ensures Edge(g, u, v)
  {
    var n :| Reaches(g, n, n);
    var p :| Leads(g, p, n, n);
    u, v := p[0], p[1];
  }

  /** A valid request, a plan of one step for it and a generator that answers with a space
      satisfy everything the builder demands and not the flow's own check. */
  lemma BlankIdPlan()
    ensures FlowRequestValid(REQUEST) && B.Supported(Strip(REQUEST.taskType), None)
    ensures B.PlanValid(ONE_STEP, BuilderRequest(REQUEST), None)
    ensures B.GeneratesIds(SPACES, 1) && !AnswersNonBlank(SPACES, 1)
  {
    OneLetter();
    var steps := ONE_STEP.steps;
    assert SPACES(0) == " ";
    assert B.StepIds(steps) == [] + ["x"] && B.StepDependencies(steps) == [] + [[]];
    GraphOfSnoc([], [], "x", []);
    if Cyclic(B.StepGraph(steps)) {
      var u, v := CycleHasEdge(B.StepGraph(steps));
      assert false;
    }
  }

  /** So this request is built and then lost, whatever the queue would have answered, and
      the queue never sees it. */
  method BlankIdIsLost(flow: FlowCoordinator, now: string, queue: Q.MissionQueue)
    returns (result: FlowResult, ghost built: Option<seq<Mission>>)
    requires flow.Valid() && flow.types.None?
    modifies flow, queue
    ensures built.Some? && !result.accepted && queue.items == old(queue.items)
  {
    BlankIdPlan();
    result, built := flow.Process(REQUEST, Planned(ONE_STEP), SPACES, now, queue);
  }
}
