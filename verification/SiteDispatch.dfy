/** Greedy, capped dispatch of site tasks to the development supervisor. Money and
    priorities are integers. */
module SiteDispatch {
  import opened Digraph
  import opened Ordering

  datatype Risk = Low | Medium | High | Critical

  datatype TaskStatus = Candidate | AwaitingApproval | Submitted | BlockedTask | Cancelled | Other(name: string)

  /** `equivalenceKey` is the key computed from the task's project, title, objective,
      findings and paths. */
  datatype Task = Task(
    taskId: string, equivalenceKey: string, priority: int, cost: int,
    risk: Risk, approvalRequired: bool, autoEligible: bool)

  datatype SiteConfig = SiteConfig(lowRiskFixes: bool, mediumRiskFixes: bool, maxTasks: int, maxCost: int)

  /** The collaborators' answers, by task id. */
  datatype Environment = Environment(
    isApproved: string -> bool,
    canSpend: string -> bool,
    submits: string -> bool,
    recordsSpend: string -> bool)

  /** What became of one eligible task. `Sent` also covers a submission whose spend could
      not be recorded. */
  datatype Outcome = Sent(spendRecorded: bool) | OverTaskLimit | OverBudget | DuplicateKey | SubmitRaised

  function AutoDispatchEligible(cfg: SiteConfig, risk: Risk, approvalRequired: bool): bool {
    if approvalRequired then false
    else match risk
      case Low => cfg.lowRiskFixes
      case Medium => cfg.mediumRiskFixes
      case _ => false
  }

  function Min(a: int, b: int): int {
    if a < b then a else b
  }

  function SentCount(outcomes: seq<Outcome>): nat {
    if outcomes == [] then 0
    else SentCount(outcomes[..|outcomes| - 1]) + if outcomes[|outcomes| - 1].Sent? then 1 else 0
  }

  /** The tasks that were sent, in order. */
  function SentTasks(tasks: seq<Task>, outcomes: seq<Outcome>): seq<Task>
    requires |outcomes| <= |tasks|
  {
    if outcomes == [] then []
    else
      var n := |outcomes| - 1;
      SentTasks(tasks, outcomes[..n]) + if outcomes[n].Sent? then [tasks[n]] else []
  }

  function CostOf(tasks: seq<Task>): int {
    if tasks == [] then 0 else CostOf(tasks[..|tasks| - 1]) + tasks[|tasks| - 1].cost
  }

  function KeysOf(tasks: seq<Task>): (keys: seq<string>)
    ensures |keys| == |tasks|
  {
    seq(|tasks|, i requires 0 <= i < |tasks| => tasks[i].equivalenceKey)
  }

  /** The outcome of the next task after `sent` were sent this cycle. */
  function OutcomeFor(limit: int, maxCost: int, env: Environment, active: set<string>, sent: seq<Task>, t: Task): Outcome {
    if |sent| >= limit then OverTaskLimit
    else if CostOf(sent) + t.cost > maxCost || !env.canSpend(t.taskId) then OverBudget
    else if t.equivalenceKey in active || t.equivalenceKey in KeysOf(sent) then DuplicateKey
    else if env.submits(t.taskId) then Sent(env.recordsSpend(t.taskId))
    else SubmitRaised
  }

  /** Each task's outcome is decided by the tasks sent before it. */
  ghost predicate Greedy(limit: int, maxCost: int, env: Environment, active: set<string>, tasks: seq<Task>, outcomes: seq<Outcome>) {
    && |outcomes| <= |tasks|
    && forall i :: 0 <= i < |outcomes| ==> DecidedAt(limit, maxCost, env, active, tasks, outcomes, i)
  }

  ghost predicate DecidedAt(limit: int, maxCost: int, env: Environment, active: set<string>, tasks: seq<Task>,
                            outcomes: seq<Outcome>, i: nat)
    requires i < |outcomes| <= |tasks|
  {
    outcomes[i] == OutcomeFor(limit, maxCost, env, active, SentTasks(tasks, outcomes[..i]), tasks[i])
  }

  predicate TaskBefore(a: Task, b: Task) {
    a.priority > b.priority || (a.priority == b.priority && LexLess(a.taskId, b.taskId))
  }

  function FailureCodes(outcomes: seq<Outcome>): seq<Outcome> {
    if outcomes == [] then []
    else
      var last := outcomes[|outcomes| - 1];
      FailureCodes(outcomes[..|outcomes| - 1]) + if last == Sent(true) then [] else [last]
  }

  function SpendFailures(outcomes: seq<Outcome>): nat {
    if outcomes == [] then 0
    else SpendFailures(outcomes[..|outcomes| - 1]) + if outcomes[|outcomes| - 1] == Sent(false) then 1 else 0
  }

  /** The status map after one task was decided. */
  function Settle(status: map<string, TaskStatus>, id: string, outcome: Outcome): map<string, TaskStatus> {
    match outcome
    case Sent(recorded) => status[id := if recorded then Submitted else BlockedTask]
    case SubmitRaised => status[id := BlockedTask]
    case _ => status
  }

  /** The status map after the tasks decided so far. */
  function Settled(status: map<string, TaskStatus>, tasks: seq<Task>, outcomes: seq<Outcome>): map<string, TaskStatus>
    requires |outcomes| <= |tasks|
  {
    if outcomes == [] then status
    else
      var n := |outcomes| - 1;
      Settle(Settled(status, tasks, outcomes[..n]), tasks[n].taskId, outcomes[n])
  }

  lemma SettledSnoc(status: map<string, TaskStatus>, tasks: seq<Task>, outcomes: seq<Outcome>, o: Outcome)
    requires |outcomes| < |tasks|
    ensures Settled(status, tasks, outcomes + [o]) == Settle(Settled(status, tasks, outcomes), tasks[|outcomes|].taskId, o)
  {
    assert (outcomes + [o])[..|outcomes|] == outcomes;
  }

  /** The status a task has after it was decided. */
  function StatusAfter(before: TaskStatus, outcome: Outcome): TaskStatus {
    match outcome
    case Sent(recorded) => if recorded then Submitted else BlockedTask
    case SubmitRaised => BlockedTask
    case _ => before
  }

  /** Each decided task ends with the status its own outcome gives it, and every other task
      keeps the status it had. */
  lemma {:induction false} SettledAt(status: map<string, TaskStatus>, tasks: seq<Task>, outcomes: seq<Outcome>, id: string)
    requires |outcomes| <= |tasks| && id in status
    requires forall i, j :: 0 <= i < j < |tasks| ==> tasks[i].taskId != tasks[j].taskId
    ensures id in Settled(status, tasks, outcomes)
    ensures (forall i :: 0 <= i < |outcomes| ==> tasks[i].taskId != id) ==> Settled(status, tasks, outcomes)[id] == status[id]
    ensures forall i :: 0 <= i < |outcomes| && tasks[i].taskId == id ==>
      Settled(status, tasks, outcomes)[id] == StatusAfter(status[id], outcomes[i])
  {
    if outcomes != [] {
      SettledAt(status, tasks, outcomes[..|outcomes| - 1], id);
    }
  }

  lemma {:induction false} SettledKeys(status: map<string, TaskStatus>, tasks: seq<Task>, outcomes: seq<Outcome>)
    requires |outcomes| <= |tasks| && forall t :: t in tasks ==> t.taskId in status
    ensures Settled(status, tasks, outcomes).Keys == status.Keys
  {
    if outcomes != [] {
      var n := |outcomes| - 1;
      SettledKeys(status, tasks, outcomes[..n]);
      assert tasks[n] in tasks;
    }
  }

  lemma {:induction false} SentSnoc(tasks: seq<Task>, outcomes: seq<Outcome>, o: Outcome)
    requires |outcomes| < |tasks|
    ensures SentTasks(tasks, outcomes + [o]) == SentTasks(tasks, outcomes) + if o.Sent? then [tasks[|outcomes|]] else []
    ensures !o.Sent? ==> SentTasks(tasks, outcomes + [o]) == SentTasks(tasks, outcomes)
    ensures SentCount(outcomes + [o]) == SentCount(outcomes) + if o.Sent? then 1 else 0
    ensures FailureCodes(outcomes + [o]) == FailureCodes(outcomes) + if o == Sent(true) then [] else [o]
    ensures SpendFailures(outcomes + [o]) == SpendFailures(outcomes) + if o == Sent(false) then 1 else 0
  {
    assert (outcomes + [o])[..|outcomes|] == outcomes;
  }

  lemma GreedySnoc(limit: int, maxCost: int, env: Environment, active: set<string>, tasks: seq<Task>, outcomes: seq<Outcome>)
    requires Greedy(limit, maxCost, env, active, tasks, outcomes) && |outcomes| < |tasks|
    ensures Greedy(limit, maxCost, env, active, tasks,
                   outcomes + [OutcomeFor(limit, maxCost, env, active, SentTasks(tasks, outcomes), tasks[|outcomes|])])
  {
    var longer := outcomes + [OutcomeFor(limit, maxCost, env, active, SentTasks(tasks, outcomes), tasks[|outcomes|])];
    forall i | 0 <= i < |longer|
      ensures DecidedAt(limit, maxCost, env, active, tasks, longer, i)
    {
      if i < |outcomes| {
        assert DecidedAt(limit, maxCost, env, active, tasks, outcomes, i);
        assert longer[..i] == outcomes[..i];
      } else {
        assert longer[..i] == outcomes;
      }
    }
  }

  lemma GreedyPrefix(limit: int, maxCost: int, env: Environment, active: set<string>, tasks: seq<Task>, outcomes: seq<Outcome>)
    requires Greedy(limit, maxCost, env, active, tasks, outcomes) && outcomes != []
    ensures Greedy(limit, maxCost, env, active, tasks, outcomes[..|outcomes| - 1])
  {
    var shorter := outcomes[..|outcomes| - 1];
    forall i | 0 <= i < |shorter|
      ensures DecidedAt(limit, maxCost, env, active, tasks, shorter, i)
    {
      assert DecidedAt(limit, maxCost, env, active, tasks, outcomes, i);
      assert shorter[..i] == outcomes[..i];
    }
  }

  /** What holds of the tasks sent in one cycle. */
  ghost predicate WithinLimits(limit: int, maxCost: int, active: set<string>, sent: seq<Task>) {
    && (sent != [] ==> |sent| <= limit && CostOf(sent) <= maxCost)
    && Distinct(KeysOf(sent))
    && (forall k :: k in KeysOf(sent) ==> k !in active)
  }

  lemma SendOne(limit: int, maxCost: int, env: Environment, active: set<string>, sent: seq<Task>, t: Task)
    requires WithinLimits(limit, maxCost, active, sent)
    requires OutcomeFor(limit, maxCost, env, active, sent, t).Sent?
    ensures WithinLimits(limit, maxCost, active, sent + [t])
  {
    var longer := sent + [t];
    assert longer[..|sent|] == sent;
    assert CostOf(longer) == CostOf(sent) + t.cost;
    assert KeysOf(longer) == KeysOf(sent) + [t.equivalenceKey];
  }

  /** A cycle sends at most the task limit, at most the cost limit, and no equivalence key
      that is active or was sent before. */
  lemma {:induction false} GreedyWithinLimits(limit: int, maxCost: int, env: Environment, active: set<string>,
                                              tasks: seq<Task>, outcomes: seq<Outcome>)
    requires Greedy(limit, maxCost, env, active, tasks, outcomes)
    ensures |SentTasks(tasks, outcomes)| == SentCount(outcomes)
    ensures WithinLimits(limit, maxCost, active, SentTasks(tasks, outcomes))
  {
    if outcomes != [] {
      var n := |outcomes| - 1;
      GreedyPrefix(limit, maxCost, env, active, tasks, outcomes);
      GreedyWithinLimits(limit, maxCost, env, active, tasks, outcomes[..n]);
      assert DecidedAt(limit, maxCost, env, active, tasks, outcomes, n);
      if outcomes[n].Sent? {
        SendOne(limit, maxCost, env, active, SentTasks(tasks, outcomes[..n]), tasks[n]);
      } else {
        assert SentTasks(tasks, outcomes) == SentTasks(tasks, outcomes[..n]);
      }
    }
  }

  /** What becomes of each task: the first of the checks that fails decides, and a task that
      passes them is sent if the submission succeeds. The checks are room in both task
      limits, room in the cost limit, the budget, and a key that is neither active nor sent
      before in this cycle. */
  lemma DecidedExactly(maxDispatch: int, maxTasks: int, maxCost: int, env: Environment, active: set<string>,
                       tasks: seq<Task>, outcomes: seq<Outcome>, i: nat)
    requires Greedy(Min(maxDispatch, maxTasks), maxCost, env, active, tasks, outcomes) && i < |outcomes|
    ensures var sent, t := SentTasks(tasks, outcomes[..i]), tasks[i];
      var room := |sent| < maxDispatch && |sent| < maxTasks;
      var paid := CostOf(sent) + t.cost <= maxCost && env.canSpend(t.taskId);
      var isNew := t.equivalenceKey !in active && forall k :: 0 <= k < |sent| ==> sent[k].equivalenceKey != t.equivalenceKey;
      && (outcomes[i] == OverTaskLimit <==> !room)
      && (outcomes[i] == OverBudget <==> room && !paid)
      && (outcomes[i] == DuplicateKey <==> room && paid && !isNew)
      && (outcomes[i] == SubmitRaised <==> room && paid && isNew && !env.submits(t.taskId))
      && (outcomes[i] == Sent(env.recordsSpend(t.taskId)) <==> room && paid && isNew && env.submits(t.taskId))
  {
    assert DecidedAt(Min(maxDispatch, maxTasks), maxCost, env, active, tasks, outcomes, i);
    var sent := SentTasks(tasks, outcomes[..i]);
    assert forall k :: 0 <= k < |sent| ==> KeysOf(sent)[k] == sent[k].equivalenceKey;
  }

  /** Higher priority first, and by id among equals. */
  ghost predicate HighestFirst(tasks: seq<Task>) {
    forall i, j :: 0 <= i < j < |tasks| ==>
      || tasks[i].priority > tasks[j].priority
      || (tasks[i].priority == tasks[j].priority && (tasks[i].taskId == tasks[j].taskId || LexLess(tasks[i].taskId, tasks[j].taskId)))
  }

  lemma OrderSpelledOut(tasks: seq<Task>)
    requires SortedBy(TaskBefore, tasks)
    ensures HighestFirst(tasks)
  {
    forall i, j | 0 <= i < j < |tasks|
      ensures || tasks[i].priority > tasks[j].priority
              || (tasks[i].priority == tasks[j].priority && (tasks[i].taskId == tasks[j].taskId || LexLess(tasks[i].taskId, tasks[j].taskId)))
    {
      assert !TaskBefore(tasks[j], tasks[i]);
      LexTotal(tasks[i].taskId, tasks[j].taskId);
    }
  }

  /** Every eligible task is accounted for: sent and refused add up to all of them, with a
      submission whose spend was not recorded counted on both sides. */
  lemma {:induction false} CountsAddUp(outcomes: seq<Outcome>)
    ensures SentCount(outcomes) + |FailureCodes(outcomes)| == |outcomes| + SpendFailures(outcomes)
  {
    if outcomes != [] {
      CountsAddUp(outcomes[..|outcomes| - 1]);
    }
  }

  lemma {:induction false} SentIsMarked(tasks: seq<Task>, outcomes: seq<Outcome>, t: Task)
    requires |outcomes| <= |tasks| && t in SentTasks(tasks, outcomes)
    ensures exists i :: 0 <= i < |outcomes| && tasks[i] == t && outcomes[i].Sent?
  {
    var n := |outcomes| - 1;
    if !(outcomes[n].Sent? && tasks[n] == t) {
      SentIsMarked(tasks, outcomes[..n], t);
      var i :| 0 <= i < n && tasks[i] == t && outcomes[..n][i].Sent?;
      assert outcomes[i].Sent?;
    }
  }

  class SiteProject {
    const cfg: SiteConfig
    const maxDispatchPerCycle: int
    var tasks: map<string, Task>
    var status: map<string, TaskStatus>
    var activeKeys: set<string>
    ghost var submissions: seq<Task>
    ghost var rejected: set<string>

    constructor (cfg: SiteConfig, maxDispatchPerCycle: int)
      ensures Valid() && this.cfg == cfg && this.maxDispatchPerCycle == maxDispatchPerCycle
      ensures tasks == map[] && status == map[] && submissions == [] && rejected == {}
    {
      this.cfg, this.maxDispatchPerCycle := cfg, maxDispatchPerCycle;
      tasks, status, activeKeys, submissions, rejected := map[], map[], {}, [], {};
    }

    /** Over the whole life of the project: no equivalence key was submitted twice, nothing
        was submitted but tasks of low or medium risk that need no approval and whose kind of
        fix is switched on, and a rejected task stays cancelled. */
    ghost predicate Valid()
      reads this
    {
      && status.Keys == tasks.Keys
      && (forall id :: id in tasks ==> tasks[id].taskId == id && Eligibility(tasks[id]))
      && Distinct(KeysOf(submissions)) && Elements(KeysOf(submissions)) == activeKeys
      && (forall t :: t in submissions ==> SafeToSend(t))
      && rejected <= status.Keys && (forall id :: id in rejected ==> status[id] == Cancelled)
    }

    predicate Eligibility(t: Task) {
      t.autoEligible == AutoDispatchEligible(cfg, t.risk, t.approvalRequired)
    }

    predicate SafeToSend(t: Task) {
      !t.approvalRequired && ((t.risk.Low? && cfg.lowRiskFixes) || (t.risk.Medium? && cfg.mediumRiskFixes))
    }

    /** Registers a new task candidate, whose eligibility is decided here. */
    method Register(taskId: string, equivalenceKey: string, priority: int, cost: int, risk: Risk, approvalRequired: bool)
      returns (created: bool)
      requires Valid()
      modifies this
      ensures Valid() && created == (taskId !in old(tasks))
      ensures submissions == old(submissions) && activeKeys == old(activeKeys) && rejected == old(rejected)
      ensures tasks == if created
        then old(tasks)[taskId := Task(taskId, equivalenceKey, priority, cost, risk, approvalRequired,
                                       AutoDispatchEligible(cfg, risk, approvalRequired))]
        else old(tasks)
      ensures status == if created then old(status)[taskId := Candidate] else old(status)
    {
      created := taskId !in tasks;
      if created {
        var eligible := AutoDispatchEligible(cfg, risk, approvalRequired);
        tasks := tasks[taskId := Task(taskId, equivalenceKey, priority, cost, risk, approvalRequired, eligible)];
        status := status[taskId := Candidate];
      }
    }

    /** Approves a task: one that waits becomes a candidate again. The mark for automatic
        dispatch was decided at registration and is not looked at, so no cycle dispatches
        a task that needed the approval. */
    method Approve(taskId: string) returns (known: bool)
      requires Valid()
      modifies this`status
      ensures Valid() && known == (taskId in tasks)
      ensures status == if known && old(status)[taskId] == AwaitingApproval then old(status)[taskId := Candidate] else old(status)
      ensures known && tasks[taskId].approvalRequired ==> forall st :: !MayDispatch(taskId, st)
    {
      if taskId !in tasks {
        return false;
      }
      assert Eligibility(tasks[taskId]);
      if status[taskId] == AwaitingApproval {
        status := status[taskId := Candidate];
      }
      return true;
    }

    /** Rejects a task, whatever its status; no later operation reopens it. */
    method Reject(taskId: string) returns (known: bool)
      requires Valid()
      modifies this`status, this`rejected
      ensures Valid() && known == (taskId in tasks)
      ensures status == if known then old(status)[taskId := Cancelled] else old(status)
      ensures rejected == old(rejected) + if known then {taskId} else {}
    {
      if taskId !in tasks {
        return false;
      }
      status, rejected := status[taskId := Cancelled], rejected + {taskId};
      return true;
    }

    /** The open tasks that may be dispatched without anyone's approval. */
    ghost predicate MayDispatch(id: string, st: map<string, TaskStatus>)
      reads this`tasks
    {
      id in tasks && id in st && (st[id] == Candidate || st[id] == AwaitingApproval) && tasks[id].autoEligible
    }

    /** A candidate that needs an approval it does not have starts to wait for it. */
    function Waiting(env: Environment, t: Task, st: TaskStatus): TaskStatus {
      if st == Candidate && t.approvalRequired && !env.isApproved(t.taskId) then AwaitingApproval else st
    }

    /** Looks at one task: it may be taken, or it may start to wait for an approval. */
    method Consider(env: Environment, id: string) returns (take: bool)
      requires Valid() && id in tasks
      modifies this`status
      ensures Valid()
      ensures take <==> MayDispatch(id, old(status))
      ensures status == old(status)[id := Waiting(env, tasks[id], old(status)[id])]
    {
      var t := tasks[id];
      var open := status[id] == Candidate || status[id] == AwaitingApproval;
      var approved := !t.approvalRequired || env.isApproved(id);
      assert Eligibility(t);
      take := open && t.autoEligible && approved;
      if open && !approved && status[id] == Candidate {
        status := status[id := AwaitingApproval];
      }
      assert status == old(status)[id := status[id]];
    }

    /** Collects the tasks that may be dispatched. */
    method CollectEligible(env: Environment, ids: seq<string>) returns (filtered: seq<Task>)
      requires Valid() && Distinct(ids) && forall id :: id in ids <==> id in tasks
      modifies this`status
      ensures Valid() && Distinct(filtered)
      ensures forall t :: t in filtered <==> t.taskId in tasks && tasks[t.taskId] == t && MayDispatch(t.taskId, old(status))
      ensures forall id :: id in tasks ==> status[id] == Waiting(env, tasks[id], old(status)[id])
    {
      filtered := [];
      for i := 0 to |ids|
        invariant Valid() && Collected(filtered, ids[..i], old(status))
        invariant Looked(env, ids[..i], old(status), status)
      {
        filtered := CollectNext(env, ids, i, filtered, old(status));
      }
      assert ids[..|ids|] == ids;
    }

    /** Looks at the task of the next id. */
    method CollectNext(env: Environment, ids: seq<string>, i: nat, filtered0: seq<Task>, ghost st0: map<string, TaskStatus>)
      returns (filtered: seq<Task>)
      requires Valid() && Distinct(ids) && i < |ids| && ids[i] in tasks
      requires Collected(filtered0, ids[..i], st0) && Looked(env, ids[..i], st0, status)
      modifies this`status
      ensures Valid()
      ensures Collected(filtered, ids[..i + 1], st0) && Looked(env, ids[..i + 1], st0, status)
    {
      var id := ids[i];
      assert id !in ids[..i] && ids[..i + 1] == ids[..i] + [id];
      LookOne(env, ids[..i], id, st0, status);
      CollectOne(filtered0, ids[..i], id, st0);
      var take := Consider(env, id);
      return if take then filtered0 + [tasks[id]] else filtered0;
    }

    /** The tasks listed are those of the ids seen so far that may be dispatched, once each. */
    ghost predicate Collected(filtered: seq<Task>, seen: seq<string>, st: map<string, TaskStatus>)
      reads this`tasks
    {
      && Distinct(filtered)
      && (forall t :: t in filtered ==> t.taskId in seen && t.taskId in tasks && tasks[t.taskId] == t)
      && (forall id :: id in seen ==> id in tasks && (tasks[id] in filtered <==> MayDispatch(id, st)))
    }

    /** The tasks seen so far have been looked at and the others have not. */
    ghost predicate Looked(env: Environment, seen: seq<string>, st0: map<string, TaskStatus>, st: map<string, TaskStatus>)
      reads this`tasks
    {
      && st0.Keys == st.Keys == tasks.Keys
      && forall id :: id in tasks ==> st[id] == if id in seen then Waiting(env, tasks[id], st0[id]) else st0[id]
    }

    lemma LookOne(env: Environment, seen: seq<string>, id: string, st0: map<string, TaskStatus>, st: map<string, TaskStatus>)
      requires Looked(env, seen, st0, st) && id in tasks && id !in seen
      ensures Looked(env, seen + [id], st0, st[id := Waiting(env, tasks[id], st[id])])
      ensures MayDispatch(id, st) == MayDispatch(id, st0)
    {
    }

    lemma CollectOne(filtered: seq<Task>, seen: seq<string>, id: string, st: map<string, TaskStatus>)
      requires Collected(filtered, seen, st) && id !in seen && id in tasks
      requires forall i :: i in tasks ==> tasks[i].taskId == i
      ensures Collected(if MayDispatch(id, st) then filtered + [tasks[id]] else filtered, seen + [id], st)
    {
      assert tasks[id] !in filtered;
    }

    /** One dispatch cycle over the open tasks. `order` lists the registered ids. The
        outcomes are decided greedily, highest priority first. */
    method DispatchSafeTasks(env: Environment, order: seq<string>)
      returns (dispatched: nat, failures: seq<Outcome>, ghost filtered: seq<Task>, ghost outcomes: seq<Outcome>)
      requires Valid() && Distinct(order) && forall id :: id in order <==> id in tasks
      modifies this
      ensures Valid()
      ensures tasks == old(tasks) && rejected == old(rejected)
      ensures forall t :: t in filtered ==> t.taskId !in rejected
      ensures CycleStatus(env, old(status), status, filtered, outcomes)
      ensures forall t :: t in filtered <==> t.taskId in tasks && tasks[t.taskId] == t && MayDispatch(t.taskId, old(status))
      ensures forall id :: id in tasks ==> (tasks[id] in filtered <==>
        (old(status)[id] == Candidate || old(status)[id] == AwaitingApproval) && SafeToSend(tasks[id]))
      ensures Distinct(filtered) && SortedBy(TaskBefore, filtered) && HighestFirst(filtered)
      ensures SentTasks(filtered, outcomes) != [] ==>
        && |SentTasks(filtered, outcomes)| <= maxDispatchPerCycle && |SentTasks(filtered, outcomes)| <= cfg.maxTasks
        && CostOf(SentTasks(filtered, outcomes)) <= cfg.maxCost
      ensures |outcomes| == |filtered|
      ensures Greedy(Min(maxDispatchPerCycle, cfg.maxTasks), cfg.maxCost, env, old(activeKeys), filtered, outcomes)
      ensures submissions == old(submissions) + SentTasks(filtered, outcomes)
      ensures dispatched == SentCount(outcomes) && failures == FailureCodes(outcomes)
    {
      var eligible := CollectSorted(env, order);
      ghost var looked := status;
      dispatched, failures, outcomes := SendAll(env, eligible);
      filtered := eligible;
      CycleSettles(env, old(status), looked, filtered, outcomes);
      GreedyWithinLimits(Min(maxDispatchPerCycle, cfg.maxTasks), cfg.maxCost, env, old(activeKeys), filtered, outcomes);
      OrderSpelledOut(filtered);
      TakenExactly(old(status), filtered);
    }

    /** The eligible tasks, highest priority first. */
    method CollectSorted(env: Environment, order: seq<string>) returns (eligible: seq<Task>)
      requires Valid() && Distinct(order) && forall id :: id in order <==> id in tasks
      modifies this`status
      ensures Valid() && Distinct(eligible) && SortedBy(TaskBefore, eligible)
      ensures forall t :: t in eligible <==> t.taskId in tasks && tasks[t.taskId] == t && MayDispatch(t.taskId, old(status))
      ensures forall t :: t in eligible ==> Sendable(t)
      ensures forall id :: id in tasks ==> status[id] == Waiting(env, tasks[id], old(status)[id])
    {
      var collected := CollectEligible(env, order);
      TaskOrderIsKeyOrder(Elements(collected));
      SortBySorted(TaskBefore, collected);
      eligible := SortBy(TaskBefore, collected);
      MultisetElements(collected, eligible);
      DistinctPermutation(collected, eligible);
      assert forall t :: t in eligible ==> t in collected && MayDispatch(t.taskId, old(status));
    }

    lemma TakenExactly(st: map<string, TaskStatus>, filtered: seq<Task>)
      requires Valid() && st.Keys == tasks.Keys
      requires forall t :: t in filtered <==> t.taskId in tasks && tasks[t.taskId] == t && MayDispatch(t.taskId, st)
      ensures forall id :: id in tasks ==> (tasks[id] in filtered <==>
        (st[id] == Candidate || st[id] == AwaitingApproval) && SafeToSend(tasks[id]))
    {
      forall id | id in tasks ensures tasks[id].autoEligible <==> SafeToSend(tasks[id]) {
        assert Eligibility(tasks[id]);
      }
    }

    /** After a cycle each task it decided has the status of its outcome, and every other one
        is only looked at. */
    ghost predicate CycleStatus(env: Environment, st0: map<string, TaskStatus>, st: map<string, TaskStatus>,
                                filtered: seq<Task>, outcomes: seq<Outcome>)
      reads this`tasks
    {
      && |filtered| == |outcomes| && st.Keys == st0.Keys == tasks.Keys
      && (forall id :: id in tasks && !MayDispatch(id, st0) ==>
            st[id] == if st0[id] == Candidate && tasks[id].approvalRequired && !env.isApproved(tasks[id].taskId) then AwaitingApproval else st0[id])
      && (forall i :: 0 <= i < |filtered| ==> filtered[i].taskId in st0 && TaskStatusAt(st0, st, filtered[i].taskId, outcomes[i]))
    }

    ghost predicate TaskStatusAt(st0: map<string, TaskStatus>, st: map<string, TaskStatus>, id: string, outcome: Outcome)
      requires id in st0 && st.Keys == st0.Keys
    {
      st[id] == StatusAfter(st0[id], outcome)
    }

    lemma CycleSettles(env: Environment, st0: map<string, TaskStatus>, looked: map<string, TaskStatus>,
                       filtered: seq<Task>, outcomes: seq<Outcome>)
      requires Valid() && |filtered| == |outcomes| && Distinct(filtered) && looked.Keys == st0.Keys == tasks.Keys
      requires forall id :: id in tasks ==> looked[id] == Waiting(env, tasks[id], st0[id])
      requires forall t :: t in filtered ==> t.taskId in tasks && tasks[t.taskId] == t && MayDispatch(t.taskId, st0)
      ensures CycleStatus(env, st0, Settled(looked, filtered, outcomes), filtered, outcomes)
    {
      var st := Settled(looked, filtered, outcomes);
      forall i, j | 0 <= i < j < |filtered| ensures filtered[i].taskId != filtered[j].taskId {
        assert filtered[i] in filtered && filtered[j] in filtered;
      }
      SettledKeys(looked, filtered, outcomes);
      forall id | id in tasks && !MayDispatch(id, st0) ensures st[id] == Waiting(env, tasks[id], st0[id]) {
        assert forall i :: 0 <= i < |filtered| ==> filtered[i] in filtered;
        SettledAt(looked, filtered, outcomes, id);
      }
      forall i | 0 <= i < |filtered|
        ensures filtered[i].taskId in st0 && TaskStatusAt(st0, st, filtered[i].taskId, outcomes[i])
      {
        var t := filtered[i];
        assert t in filtered && Eligibility(t);
        assert looked[t.taskId] == st0[t.taskId];
        SettledAt(looked, filtered, outcomes, t.taskId);
      }
    }

    /** The task as registered, and neither barred from automatic dispatch nor rejected. */
    ghost predicate Sendable(t: Task)
      reads this`tasks, this`rejected
    {
      t.taskId in tasks && tasks[t.taskId] == t && t.autoEligible && t.taskId !in rejected
    }

    /** The cycle so far, begun with these active keys, submissions and statuses. */
    ghost predicate Sending(env: Environment, active: set<string>, before: seq<Task>, st: map<string, TaskStatus>,
                            eligible: seq<Task>, outcomes: seq<Outcome>)
      requires |outcomes| <= |eligible|
      reads this
    {
      && Greedy(Min(maxDispatchPerCycle, cfg.maxTasks), cfg.maxCost, env, active, eligible, outcomes)
      && submissions == before + SentTasks(eligible, outcomes)
      && activeKeys == active + Elements(KeysOf(SentTasks(eligible, outcomes)))
      && status == Settled(st, eligible, outcomes)
    }

    method SendAll(env: Environment, eligible: seq<Task>)
      returns (dispatched: nat, failures: seq<Outcome>, ghost outcomes: seq<Outcome>)
      requires Valid()
      requires forall t :: t in eligible ==> Sendable(t)
      modifies this
      ensures Valid() && tasks == old(tasks) && rejected == old(rejected) && |outcomes| == |eligible|
      ensures Sending(env, old(activeKeys), old(submissions), old(status), eligible, outcomes)
      ensures dispatched == SentCount(outcomes) && failures == FailureCodes(outcomes)
    {
      var totalCost := 0;
      dispatched, failures, outcomes := 0, [], [];
      for i := 0 to |eligible|
        invariant Valid() && tasks == old(tasks) && rejected == old(rejected) && |outcomes| == i
        invariant Sending(env, old(activeKeys), old(submissions), old(status), eligible, outcomes)
        invariant Totals(eligible, outcomes, dispatched, totalCost, failures)
      {
        var outcome := SendNext(env, eligible, i, dispatched, totalCost, old(activeKeys), old(submissions), old(status), outcomes);
        TotalsNext(eligible, outcomes, outcome, dispatched, totalCost, failures);
        outcomes := outcomes + [outcome];
        if outcome.Sent? {
          dispatched, totalCost := dispatched + 1, totalCost + eligible[i].cost;
        }
        if outcome != Sent(true) {
          failures := failures + [outcome];
        }
      }
    }

    /** The next task of the cycle. */
    method SendNext(env: Environment, eligible: seq<Task>, i: nat, dispatched: nat, totalCost: int, ghost active: set<string>,
                    ghost before: seq<Task>, ghost st: map<string, TaskStatus>, ghost outcomes: seq<Outcome>)
      returns (outcome: Outcome)
      requires Valid() && i == |outcomes| < |eligible| && Sendable(eligible[i])
      requires Sending(env, active, before, st, eligible, outcomes)
      requires dispatched == |SentTasks(eligible, outcomes)| && totalCost == CostOf(SentTasks(eligible, outcomes))
      modifies this
      ensures Valid() && tasks == old(tasks) && rejected == old(rejected)
      ensures Sending(env, active, before, st, eligible, outcomes + [outcome])
    {
      ghost var sent := SentTasks(eligible, outcomes);
      ghost var limit := Min(maxDispatchPerCycle, cfg.maxTasks);
      assert eligible[i].equivalenceKey in activeKeys <==>
        eligible[i].equivalenceKey in active || eligible[i].equivalenceKey in KeysOf(sent);
      outcome := SendTask(env, eligible[i], dispatched, totalCost);
      assert outcome == OutcomeFor(limit, cfg.maxCost, env, active, sent, eligible[i]);
      GreedySnoc(limit, cfg.maxCost, env, active, eligible, outcomes);
      SentSnoc(eligible, outcomes, outcome);
      SentSums(sent, eligible[i]);
      SettledSnoc(st, eligible, outcomes, outcome);
    }

    /** One task: the four checks, then the submission. */
    method SendTask(env: Environment, t: Task, dispatched: nat, totalCost: int) returns (outcome: Outcome)
      requires Valid() && Sendable(t)
      modifies this
      ensures Valid() && tasks == old(tasks) && rejected == old(rejected)
      ensures outcome ==
        if dispatched >= Min(maxDispatchPerCycle, cfg.maxTasks) then OverTaskLimit
        else if totalCost + t.cost > cfg.maxCost || !env.canSpend(t.taskId) then OverBudget
        else if t.equivalenceKey in old(activeKeys) then DuplicateKey
        else if env.submits(t.taskId) then Sent(env.recordsSpend(t.taskId))
        else SubmitRaised
      ensures submissions == old(submissions) + if outcome.Sent? then [t] else []
      ensures activeKeys == old(activeKeys) + if outcome.Sent? then {t.equivalenceKey} else {}
      ensures status == Settle(old(status), t.taskId, outcome)
    {
      if dispatched >= Min(maxDispatchPerCycle, cfg.maxTasks) {
        return OverTaskLimit;
      }
      if totalCost + t.cost > cfg.maxCost {
        return OverBudget;
      }
      if !env.canSpend(t.taskId) {
        return OverBudget;
      }
      if t.equivalenceKey in activeKeys {
        return DuplicateKey;
      }
      if !env.submits(t.taskId) {
        status := status[t.taskId := BlockedTask];
        return SubmitRaised;
      }
      assert Eligibility(t);
      KeysGrow(submissions, t);
      activeKeys := activeKeys + {t.equivalenceKey};
      status := status[t.taskId := Submitted];
      submissions := submissions + [t];
      if !env.recordsSpend(t.taskId) {
        status := status[t.taskId := BlockedTask];
        return Sent(false);
      }
      return Sent(true);
    }
  }

  /** The counts the loop keeps beside the outcomes. */
  ghost predicate Totals(tasks: seq<Task>, outcomes: seq<Outcome>, dispatched: nat, totalCost: int, failures: seq<Outcome>)
    requires |outcomes| <= |tasks|
  {
    && dispatched == SentCount(outcomes) == |SentTasks(tasks, outcomes)|
    && totalCost == CostOf(SentTasks(tasks, outcomes))
    && failures == FailureCodes(outcomes)
  }

  lemma TotalsNext(tasks: seq<Task>, outcomes: seq<Outcome>, o: Outcome, dispatched: nat, totalCost: int, failures: seq<Outcome>)
    requires |outcomes| < |tasks| && Totals(tasks, outcomes, dispatched, totalCost, failures)
    ensures Totals(tasks, outcomes + [o], if o.Sent? then dispatched + 1 else dispatched,
                   if o.Sent? then totalCost + tasks[|outcomes|].cost else totalCost,
                   if o == Sent(true) then failures else failures + [o])
  {
    SentSnoc(tasks, outcomes, o);
    SentSums(SentTasks(tasks, outcomes), tasks[|outcomes|]);
  }

  lemma KeysGrow(sent: seq<Task>, t: Task)
    ensures KeysOf(sent + [t]) == KeysOf(sent) + [t.equivalenceKey]
    ensures Elements(KeysOf(sent + [t])) == Elements(KeysOf(sent)) + {t.equivalenceKey}
    ensures Distinct(KeysOf(sent)) && t.equivalenceKey !in Elements(KeysOf(sent)) ==> Distinct(KeysOf(sent + [t]))
  {
    assert KeysOf(sent + [t]) == KeysOf(sent) + [t.equivalenceKey];
    assert forall k :: k in KeysOf(sent) ==> k in Elements(KeysOf(sent));
  }

  lemma SentSums(sent: seq<Task>, t: Task)
    ensures CostOf(sent + [t]) == CostOf(sent) + t.cost
    ensures Elements(KeysOf(sent + [t])) == Elements(KeysOf(sent)) + {t.equivalenceKey}
  {
    assert (sent + [t])[..|sent|] == sent;
    KeysGrow(sent, t);
  }

  lemma TaskOrderIsKeyOrder(tasks: set<Task>)
    ensures IsKeyOrder(TaskBefore, tasks)
  {
    forall a, b | a in tasks && b in tasks && TaskBefore(a, b) ensures !TaskBefore(b, a) {
      LexAsymmetric(a.taskId, b.taskId);
    }
    forall a, b, c | a in tasks && b in tasks && c in tasks && !TaskBefore(b, a) && !TaskBefore(c, b)
      ensures !TaskBefore(c, a)
    {
      LexTotal(a.taskId, b.taskId);
      LexTotal(b.taskId, c.taskId);
      LexAsymmetric(a.taskId, c.taskId);
      if LexLess(a.taskId, b.taskId) && LexLess(b.taskId, c.taskId) {
        LexTransitive(a.taskId, b.taskId, c.taskId);
      }
    }
  }
}
