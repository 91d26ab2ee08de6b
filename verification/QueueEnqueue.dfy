/** Checking an enqueue request and enqueueing its missions. */
module QueueEnqueue {
  import opened Outcomes
  import opened Digraph
  import opened Text
  import opened Missions

  datatype RequestError =
    | InvalidProjectId
    | EmptyMissions
    | MissingMissionId
    | DuplicateMissionId
    | MissionProjectMismatch
    | StatusNotPending
    | DependsOnItself
    | DependencyUnknown
    | DependencyOrderViolation
    | InvalidQueueReference

  predicate RecordsValid(projectId: string, ms: seq<Mission>) {
    && Distinct(Ids(ms))
    && forall i :: 0 <= i < |ms| ==>
      ms[i].missionId != "" && ms[i].projectId == projectId && ms[i].status == "pending"
  }

  /** Every dependency names a mission strictly earlier in the list. */
  predicate EarlierDependencies(ms: seq<Mission>) {
    forall i, d :: 0 <= i < |ms| && d in ms[i].dependencies ==> d in Ids(ms)[..i]
  }

  predicate Enqueueable(projectId: string, queueReference: string, ms: seq<Mission>) {
    && NonBlank(projectId) && NonBlank(queueReference) && ms != []
    && RecordsValid(projectId, ms)
    && EarlierDependencies(ms)
  }

  /** What is accepted, position by position: nonempty, distinct ids, pending missions of the
      project, and every dependency the id of a mission earlier in the list. */
  lemma EnqueueableExactly(projectId: string, queueReference: string, ms: seq<Mission>)
    ensures Enqueueable(projectId, queueReference, ms) <==>
      && NonBlank(projectId) && NonBlank(queueReference) && ms != []
      && (forall i, j :: 0 <= i < j < |ms| ==> ms[i].missionId != ms[j].missionId)
      && (forall i :: 0 <= i < |ms| ==> ms[i].missionId != "" && ms[i].projectId == projectId && ms[i].status == "pending")
      && (forall i, d :: 0 <= i < |ms| && d in ms[i].dependencies ==> IsEarlier(ms, i, d))
  {
    assert forall i :: 0 <= i < |ms| ==> Ids(ms)[i] == ms[i].missionId;
    forall i, d | 0 <= i < |ms| ensures d in Ids(ms)[..i] <==> IsEarlier(ms, i, d) {
      if d in Ids(ms)[..i] {
        var k :| 0 <= k < i && Ids(ms)[..i][k] == d;
      }
      if IsEarlier(ms, i, d) {
        var k :| 0 <= k < i && ms[k].missionId == d;
        assert Ids(ms)[..i][k] == d;
      }
    }
  }

  predicate IsEarlier(ms: seq<Mission>, i: nat, d: string)
    requires i < |ms|
  {
    exists k :: 0 <= k < i && ms[k].missionId == d
  }

  /** Pending missions with distinct nonempty ids, of whatever project. */
  predicate OtherwiseSound(ms: seq<Mission>) {
    Distinct(Ids(ms)) && forall i :: 0 <= i < |ms| ==> ms[i].missionId != "" && ms[i].status == "pending"
  }

  method CheckRecords(projectId: string, ms: seq<Mission>) returns (fault: Option<RequestError>, ids: set<string>)
    ensures fault.None? <==> RecordsValid(projectId, ms)
    ensures fault.None? ==> ids == Elements(Ids(ms))
    ensures fault == Some(DuplicateMissionId) ==> !Distinct(Ids(ms))
    ensures fault == Some(MissionProjectMismatch) ==> exists m :: m in ms && m.projectId != projectId
    ensures fault == Some(StatusNotPending) ==> exists m :: m in ms && m.status != "pending"
    ensures fault == Some(MissingMissionId) ==> exists m :: m in ms && m.missionId == ""
    ensures fault.Some? ==> fault.value in {MissingMissionId, DuplicateMissionId, MissionProjectMismatch, StatusNotPending}
    ensures OtherwiseSound(ms) ==> (fault == Some(MissionProjectMismatch) <==> exists m :: m in ms && m.projectId != projectId)
  {
    ids := {};
    for i := 0 to |ms|
      invariant ids == Elements(Ids(ms)[..i]) && Distinct(Ids(ms)[..i])
      invariant forall k :: 0 <= k < i ==>
        ms[k].missionId != "" && ms[k].projectId == projectId && ms[k].status == "pending"
    {
      var m := ms[i];
      assert m in ms && Ids(ms)[i] == m.missionId;
      assert Ids(ms)[..i + 1] == Ids(ms)[..i] + [m.missionId];
      if m.missionId == "" {
        return Some(MissingMissionId), ids;
      }
      if m.missionId in ids {
        return Some(DuplicateMissionId), ids;
      }
      ids := ids + {m.missionId};
      if m.projectId != projectId {
        return Some(MissionProjectMismatch), ids;
      }
      if m.status != "pending" {
        return Some(StatusNotPending), ids;
      }
    }
    assert Ids(ms)[..|ms|] == Ids(ms);
    return None, ids;
  }

  method CheckOrder(ms: seq<Mission>, ids: set<string>) returns (fault: Option<RequestError>)
    requires ids == Elements(Ids(ms)) && Distinct(Ids(ms))
    ensures fault.None? <==> EarlierDependencies(ms)
    ensures fault == Some(DependsOnItself) ==> exists m :: m in ms && m.missionId in m.dependencies
    ensures fault == Some(DependencyUnknown) ==> exists m, d :: m in ms && d in m.dependencies && d !in Ids(ms)
    ensures fault.Some? ==> fault.value in {DependsOnItself, DependencyUnknown, DependencyOrderViolation}
  {
    var seen: set<string> := {};
    for i := 0 to |ms|
      invariant seen == Elements(Ids(ms)[..i])
      invariant forall k, d :: 0 <= k < i && d in ms[k].dependencies ==> d in Ids(ms)[..k]
    {
      var m := ms[i];
      assert m in ms && Ids(ms)[i] == m.missionId;
      assert Ids(ms)[..i + 1] == Ids(ms)[..i] + [m.missionId];
      if m.missionId in m.dependencies {
        assert forall k :: 0 <= k < i ==> Ids(ms)[k] != Ids(ms)[i];
        assert m.missionId !in Ids(ms)[..i];
        return Some(DependsOnItself);
      }
      for n := 0 to |m.dependencies|
        invariant forall d :: d in m.dependencies[..n] ==> d in Ids(ms)[..i]
      {
        var d := m.dependencies[n];
        if d !in ids {
          assert d !in Ids(ms) && d !in Ids(ms)[..i] && d in ms[i].dependencies;
          return Some(DependencyUnknown);
        }
        if d !in seen {
          return Some(DependencyOrderViolation);
        }
      }
      assert m.dependencies[..|m.dependencies|] == m.dependencies;
      seen := seen + {m.missionId};
    }
    return None;
  }

  /** Accepts exactly the enqueueable requests. */
  method ValidateEnqueueRequest(projectId: string, queueReference: string, ms: seq<Mission>)
    returns (fault: Option<RequestError>)
    ensures fault.None? <==> Enqueueable(projectId, queueReference, ms)
    ensures fault == Some(InvalidQueueReference) <==>
      !NonBlank(queueReference) && NonBlank(projectId) && ms != [] && RecordsValid(projectId, ms) && EarlierDependencies(ms)
    ensures fault == Some(MissionProjectMismatch) ==> exists m :: m in ms && m.projectId != projectId
    ensures NonBlank(projectId) && OtherwiseSound(ms) && (exists m :: m in ms && m.projectId != projectId) ==>
      fault == Some(MissionProjectMismatch)
  {
    if !NonBlank(projectId) {
      return Some(InvalidProjectId);
    }
    if ms == [] {
      return Some(EmptyMissions);
    }
    var ids;
    fault, ids := CheckRecords(projectId, ms);
    if fault.Some? {
      return;
    }
    fault := CheckOrder(ms, ids);
    if fault.Some? {
      return;
    }
    if !NonBlank(queueReference) {
      return Some(InvalidQueueReference);
    }
    return None;
  }

  datatype SingleReply = Stored | ReturnedFalse | Raised

  datatype BatchReply = BatchRaised | BatchReturned(ids: seq<string>)

  /** A project's queue as the coordinator meets it: which interfaces it offers and how
      it answers. A single call stores its mission exactly when it answers `Stored`; a
      batch call that does not raise stores the whole list. */
  class MissionQueue {
    const projectId: string
    const hasBatch: bool
    const hasSingle: bool
    const singleReply: nat -> SingleReply
    const batchReply: seq<Mission> -> BatchReply
    var items: seq<Mission>
    var calls: nat

    constructor (projectId: string, hasBatch: bool, hasSingle: bool,
                 singleReply: nat -> SingleReply, batchReply: seq<Mission> -> BatchReply)
      ensures this.projectId == projectId && this.hasBatch == hasBatch && this.hasSingle == hasSingle
      ensures this.singleReply == singleReply && this.batchReply == batchReply
      ensures items == [] && calls == 0
    {
      this.projectId, this.hasBatch, this.hasSingle := projectId, hasBatch, hasSingle;
      this.singleReply, this.batchReply := singleReply, batchReply;
      items, calls := [], 0;
    }

    method EnqueueOne(m: Mission) returns (reply: SingleReply)
      modifies this
      ensures calls == old(calls) + 1 && reply == singleReply(old(calls))
      ensures items == old(items) + if reply.Stored? then [m] else []
    {
      reply := singleReply(calls);
      calls := calls + 1;
      if reply.Stored? {
        items := items + [m];
      }
    }

    method EnqueueBatch(ms: seq<Mission>) returns (reply: BatchReply)
      modifies this
      ensures calls == old(calls) && reply == batchReply(ms)
      ensures items == old(items) + if reply.BatchReturned? then ms else []
    {
      reply := batchReply(ms);
      if reply.BatchReturned? {
        items := items + ms;
      }
    }
  }

  datatype Reason =
    | NoReason
    | InvalidEnqueueRequest
    | CrossProjectReference
    | UnsupportedQueueInterface
    | QueueFailed
    | PartialEnqueue

  datatype EnqueueResult = EnqueueResult(accepted: bool, missionIds: seq<string>, atomic: bool, reason: Reason)

  /** The answers to `n` single calls from call number `from` on are all `Stored`. */
  ghost predicate AllStored(reply: nat -> SingleReply, from: nat, n: nat) {
    forall k :: from <= k < from + n ==> reply(k).Stored?
  }

  /** How many of the answers to `n` single calls from call number `from` on come before
      the first that is not `Stored`. */
  function StoredBefore(reply: nat -> SingleReply, from: nat, n: nat): (k: nat)
    ensures k <= n
    decreases n
  {
    if n > 0 && reply(from).Stored? then 1 + StoredBefore(reply, from + 1, n - 1) else 0
  }

  /** `k` is that number exactly when the answers before it are `Stored` and it is not. */
  lemma {:induction false} StoredBeforeExact(reply: nat -> SingleReply, from: nat, n: nat, k: nat)
    requires k <= n
    ensures StoredBefore(reply, from, n) == k <==> AllStored(reply, from, k) && (k < n ==> !reply(from + k).Stored?)
    decreases n
  {
    if n > 0 {
      if k > 0 {
        StoredBeforeExact(reply, from + 1, n - 1, k - 1);
        AllStoredNext(reply, from, k);
      }
    }
  }

  lemma AllStoredNext(reply: nat -> SingleReply, from: nat, k: nat)
    requires k > 0
    ensures AllStored(reply, from, k) <==> reply(from).Stored? && AllStored(reply, from + 1, k - 1)
  {
    if reply(from).Stored? && AllStored(reply, from + 1, k - 1) {
      forall j | from <= j < from + k ensures reply(j).Stored? {
        assert j > from ==> reply(j).Stored?;
      }
    }
  }

  /** One call per mission, in order, until one does not store. */
  method EnqueueIndividually(queue: MissionQueue, ms: seq<Mission>) returns (r: EnqueueResult)
    modifies queue
    ensures |r.missionIds| == StoredBefore(queue.singleReply, old(queue.calls), |ms|)
    ensures r.missionIds == Ids(ms)[..|r.missionIds|]
    ensures queue.items == old(queue.items) + ms[..|r.missionIds|]
    ensures r.accepted <==> AllStored(queue.singleReply, old(queue.calls), |ms|)
    ensures r.accepted <==> |r.missionIds| == |ms|
    ensures !r.accepted ==> !queue.singleReply(old(queue.calls) + |r.missionIds|).Stored?
    ensures !r.atomic
    ensures r.reason == if r.accepted then NoReason else if r.missionIds == [] then QueueFailed else PartialEnqueue
  {
    var enqueued: seq<string> := [];
    for i := 0 to |ms|
      invariant enqueued == Ids(ms)[..i]
      invariant queue.items == old(queue.items) + ms[..i]
      invariant queue.calls == old(queue.calls) + i
      invariant AllStored(queue.singleReply, old(queue.calls), i)
    {
      var reply := queue.EnqueueOne(ms[i]);
      if !reply.Stored? {
        StoredBeforeExact(queue.singleReply, old(queue.calls), |ms|, i);
        return EnqueueResult(false, enqueued, false, if enqueued != [] then PartialEnqueue else QueueFailed);
      }
      assert ms[..i + 1] == ms[..i] + [ms[i]];
      assert Ids(ms)[..i + 1] == Ids(ms)[..i] + [ms[i].missionId];
      enqueued := enqueued + [ms[i].missionId];
    }
    StoredBeforeExact(queue.singleReply, old(queue.calls), |ms|, |ms|);
    return EnqueueResult(true, enqueued, false, NoReason);
  }

  /** The queue, at call number `from`, takes the whole list. */
  ghost predicate Takes(queue: MissionQueue, from: nat, ms: seq<Mission>) {
    if queue.hasBatch then queue.batchReply(ms) == BatchReturned(Ids(ms))
    else queue.hasSingle && AllStored(queue.singleReply, from, |ms|)
  }

  /** What the queue, at call number `from`, stores of a list handed to it. */
  function Receives(queue: MissionQueue, from: nat, ms: seq<Mission>): (received: seq<Mission>)
    ensures received <= ms
  {
    if queue.hasBatch then if queue.batchReply(ms).BatchReturned? then ms else []
    else if queue.hasSingle then ms[..StoredBefore(queue.singleReply, from, |ms|)]
    else []
  }

  /** The coordinator's own checks let the list reach the queue. */
  predicate Reaches(projectId: string, queueReference: string, ms: seq<Mission>, queue: MissionQueue) {
    Enqueueable(projectId, queueReference, ms) && queue.projectId == projectId
  }

  /** The whole request. `queue` is what the resolver found; a resolver failure is not
      modelled. The queue is left alone unless the list reaches it, and then holds what it
      stored, also when the request fails: a batch whose answer does not match is stored
      in full and reported as failed. */
  method Enqueue(projectId: string, queueReference: string, ms: seq<Mission>, queue: MissionQueue) returns (r: EnqueueResult)
    modifies queue
    ensures r.reason in {InvalidEnqueueRequest, CrossProjectReference} <==> !Reaches(projectId, queueReference, ms, queue)
    ensures r.reason == InvalidEnqueueRequest ==> !Enqueueable(projectId, queueReference, ms)
    ensures r.reason == CrossProjectReference ==>
      || (exists m :: m in ms && m.projectId != projectId)
      || (Enqueueable(projectId, queueReference, ms) && queue.projectId != projectId)
    ensures NonBlank(projectId) && OtherwiseSound(ms) && (exists m :: m in ms && m.projectId != projectId) ==>
      r.reason == CrossProjectReference
    ensures Enqueueable(projectId, queueReference, ms) && queue.projectId != projectId ==> r.reason == CrossProjectReference
    ensures queue.items == old(queue.items) +
      if Reaches(projectId, queueReference, ms, queue) then Receives(queue, old(queue.calls), ms) else []
    ensures r.accepted <==> r.reason == NoReason
    ensures r.accepted <==> Reaches(projectId, queueReference, ms, queue) && Takes(queue, old(queue.calls), ms)
    ensures r.accepted ==> r.missionIds == Ids(ms) && Receives(queue, old(queue.calls), ms) == ms
    ensures r.reason == UnsupportedQueueInterface <==>
      Reaches(projectId, queueReference, ms, queue) && !queue.hasBatch && !queue.hasSingle
    ensures r.reason == QueueFailed ==>
      if queue.hasBatch then queue.batchReply(ms) != BatchReturned(Ids(ms)) else Receives(queue, old(queue.calls), ms) == []
    ensures r.reason == PartialEnqueue <==>
      Reaches(projectId, queueReference, ms, queue) && !queue.hasBatch && 0 < |Receives(queue, old(queue.calls), ms)| < |ms|
    ensures !r.accepted && r.reason != PartialEnqueue ==> r.missionIds == []
    ensures r.reason == PartialEnqueue ==> r.missionIds == Ids(Receives(queue, old(queue.calls), ms))
  {
    var fault := ValidateEnqueueRequest(projectId, queueReference, ms);
    if fault.Some? {
      return EnqueueResult(false, [], false,
        if fault.value == MissionProjectMismatch then CrossProjectReference else InvalidEnqueueRequest);
    }
    if queue.projectId != projectId {
      return EnqueueResult(false, [], false, CrossProjectReference);
    }
    if queue.hasBatch {
      var reply := queue.EnqueueBatch(ms);
      if reply != BatchReturned(Ids(ms)) {
        return EnqueueResult(false, [], true, QueueFailed);
      }
      return EnqueueResult(true, Ids(ms), true, NoReason);
    }
    if !queue.hasSingle {
      return EnqueueResult(false, [], false, UnsupportedQueueInterface);
    }
    r := EnqueueIndividually(queue, ms);
    StoredBeforeExact(queue.singleReply, old(queue.calls), |ms|, |ms|);
    assert ms[..|ms|] == ms && Ids(ms)[..|ms|] == Ids(ms);
    assert Ids(ms[..|r.missionIds|]) == Ids(ms)[..|r.missionIds|];
  }

  /** The dependencies of every mission of `stored` are among the ids of `stored`. */
  predicate DependencyClosed(stored: seq<Mission>) {
    forall m, d :: m in stored && d in m.dependencies ==> d in Ids(stored)
  }

  /** Wherever one-by-one enqueueing stops, what it has stored is closed under dependencies. */
  lemma PartialEnqueueClosed(projectId: string, queueReference: string, ms: seq<Mission>, k: nat)
    requires Enqueueable(projectId, queueReference, ms) && k <= |ms|
    ensures DependencyClosed(ms[..k])
  {
    forall m, d | m in ms[..k] && d in m.dependencies ensures d in Ids(ms[..k]) {
      var i :| 0 <= i < k && ms[..k][i] == m;
      assert d in Ids(ms)[..i];
      var j :| 0 <= j < i && Ids(ms)[j] == d;
      assert Ids(ms[..k])[j] == d;
    }
  }
}
