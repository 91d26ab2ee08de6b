/** The supervisor's mission loop: dependencies, rate and budget checks, and two retry
    budgets, one for each mission and one for the whole run. */
module MissionExecution {
  datatype ExecReply = Raised | Replied(success: bool, retryable: bool, category: string)

  /** The collaborators' answers. A mission is addressed by its position, an executor call
      by the position and the number of retries before it. `budgetBefore` and
      `budgetAfter` are constantly true when the run has no budget limit. */
  datatype Environment = Environment(
    timedOut: nat -> bool,
    rateAllows: nat -> bool,
    budgetBefore: (nat, nat) -> bool,
    execute: (nat, nat) -> ExecReply,
    budgetAfter: (nat, nat) -> bool,
    classifiedRetryable: (nat, nat) -> bool)

  datatype Limits = Limits(maxTotalRetries: int, maxRetriesPerMission: int)

  datatype Verdict = Completed | Failed | Blocked

  const NEVER_RETRIED: set<string> := {"security", "compliance", "auth", "billing", "permission"}

  function AtLeastZero(n: int): nat {
    if n < 0 then 0 else n
  }

  /** The reply to a call permits another try. */
  predicate MayRetry(env: Environment, i: nat, a: nat) {
    match env.execute(i, a)
    case Raised => env.classifiedRetryable(i, a)
    case Replied(success, retryable, category) =>
      !success && retryable && category !in NEVER_RETRIED && env.budgetAfter(i, a)
  }

  predicate Succeeds(env: Environment, i: nat, a: nat) {
    env.execute(i, a).Replied? && env.execute(i, a).success && env.budgetAfter(i, a)
  }

  /** `calls` executor calls for mission `i` ended in `verdict` after using `calls - 1` retries
      at most: every call but the last could be retried, and only the last can succeed. */
  ghost predicate Tried(env: Environment, limits: Limits, i: nat, calls: nat, verdict: Verdict) {
    && (forall a :: 0 <= a && a + 1 < calls ==> MayRetry(env, i, a))
    && calls <= AtLeastZero(limits.maxRetriesPerMission) + 1
    && (verdict.Completed? <==> calls > 0 && Succeeds(env, i, calls - 1))
    && (verdict.Failed? ==> calls > 0 && !Succeeds(env, i, calls - 1))
  }

  /** The retries used for mission `i`. A retry whose call was refused by the budget check
      is used up all the same. */
  function RetriesOf(env: Environment, i: nat, calls: nat, verdict: Verdict): nat {
    if calls == 0 then 0
    else if verdict.Blocked? && MayRetry(env, i, calls - 1) then calls
    else calls - 1
  }

  /** Why mission `i` did not complete, when `before` retries were used for the missions
      before it. A failed mission's last reply permits no retry or a retry budget is used
      up; one blocked after a call was refused by the budget check before its next call, or
      by the one after its last. */
  ghost predicate Explained(env: Environment, limits: Limits, i: nat, calls: nat, verdict: Verdict, before: nat) {
    && (verdict.Failed? ==>
          calls > 0
          && (!MayRetry(env, i, calls - 1) || calls - 1 >= limits.maxRetriesPerMission || before + calls - 1 >= limits.maxTotalRetries))
    && (verdict.Blocked? && calls > 0 ==>
          if MayRetry(env, i, calls - 1) then !env.budgetBefore(i, calls)
          else env.execute(i, calls - 1).Replied? && !env.budgetAfter(i, calls - 1))
  }

  /** The attempts for one mission that has passed its dependency and rate checks. */
  method AttemptMission(env: Environment, limits: Limits, i: nat, total0: nat)
    returns (verdict: Verdict, total: nat, ghost calls: nat)
    requires total0 <= AtLeastZero(limits.maxTotalRetries)
    ensures total0 <= total <= AtLeastZero(limits.maxTotalRetries)
    ensures Tried(env, limits, i, calls, verdict)
    ensures calls == 0 ==> verdict.Blocked? && !env.budgetBefore(i, 0)
    ensures calls > 0 ==> env.budgetBefore(i, 0)
    ensures total == total0 + RetriesOf(env, i, calls, verdict)
    ensures Explained(env, limits, i, calls, verdict, total0)
  {
    total, calls := total0, 0;
    var attempt: nat := 0;
    while true
      invariant total == total0 + attempt && calls == attempt
      invariant total <= AtLeastZero(limits.maxTotalRetries)
      invariant attempt <= AtLeastZero(limits.maxRetriesPerMission)
      invariant forall a :: 0 <= a < attempt ==> MayRetry(env, i, a)
      invariant attempt > 0 ==> env.budgetBefore(i, 0)
      decreases limits.maxTotalRetries - total
    {
      if !env.budgetBefore(i, attempt) {
        assert calls > 0 ==> MayRetry(env, i, calls - 1);
        return Blocked, total, calls;
      }
      var reply := env.execute(i, attempt);
      calls := calls + 1;
      if reply.Raised? {
        if total >= limits.maxTotalRetries || attempt >= limits.maxRetriesPerMission {
          return Failed, total, calls;
        }
        if !env.classifiedRetryable(i, attempt) {
          return Failed, total, calls;
        }
        attempt, total := attempt + 1, total + 1;
        continue;
      }
      if !env.budgetAfter(i, attempt) {
        return Blocked, total, calls;
      }
      if reply.success {
        return Completed, total, calls;
      }
      if reply.category in NEVER_RETRIED {
        return Failed, total, calls;
      }
      if reply.retryable && attempt < limits.maxRetriesPerMission && total < limits.maxTotalRetries {
        attempt, total := attempt + 1, total + 1;
        continue;
      }
      return Failed, total, calls;
    }
  }

  datatype RunResult = TimedOut | Finished(completed: seq<string>, failed: seq<string>, blocked: seq<string>, retries: nat)

  function DependenciesOf(deps: map<string, seq<string>>, id: string): seq<string> {
    if id in deps then deps[id] else []
  }

  predicate DependenciesDone(deps: map<string, seq<string>>, completed: seq<string>, id: string) {
    forall d :: d in DependenciesOf(deps, id) ==> d in completed
  }

  /** The ids, in order, whose verdict is `v`. */
  function Select(ids: seq<string>, verdicts: seq<Verdict>, v: Verdict): (r: seq<string>)
    requires |ids| == |verdicts|
  {
    if ids == [] then []
    else
      Select(ids[..|ids| - 1], verdicts[..|ids| - 1], v)
      + if verdicts[|ids| - 1] == v then [ids[|ids| - 1]] else []
  }

  function Sum(s: seq<nat>): nat {
    if s == [] then 0 else Sum(s[..|s| - 1]) + s[|s| - 1]
  }

  /** The retries used for all missions tried. */
  function RetriesUsed(env: Environment, verdicts: seq<Verdict>, calls: seq<nat>): nat
    requires |verdicts| == |calls|
  {
    if calls == [] then 0
    else
      var n := |calls| - 1;
      RetriesUsed(env, verdicts[..n], calls[..n]) + RetriesOf(env, n, calls[n], verdicts[n])
  }

  /** Everything known about a run: a verdict and a number of executor calls per mission. */
  ghost predicate Accounts(env: Environment, limits: Limits, ids: seq<string>, deps: map<string, seq<string>>,
                           verdicts: seq<Verdict>, calls: seq<nat>) {
    && |verdicts| == |calls| <= |ids|
    && RetriesUsed(env, verdicts, calls) <= AtLeastZero(limits.maxTotalRetries)
    && Sum(calls) <= |calls| + RetriesUsed(env, verdicts, calls)
    && (forall i :: 0 <= i < |verdicts| ==> AccountedAt(env, limits, ids, deps, verdicts, calls, i))
  }

  ghost predicate AccountedAt(env: Environment, limits: Limits, ids: seq<string>, deps: map<string, seq<string>>,
                              verdicts: seq<Verdict>, calls: seq<nat>, i: nat)
    requires i < |verdicts| == |calls| <= |ids|
  {
    && Tried(env, limits, i, calls[i], verdicts[i])
    && Explained(env, limits, i, calls[i], verdicts[i], RetriesUsed(env, verdicts[..i], calls[..i]))
    && Admitted(env, deps, Select(ids[..i], verdicts[..i], Completed), ids[i], i, calls[i], verdicts[i])
  }

  /** When a mission reaches the executor, and that it is blocked for a reason when it does not. */
  ghost predicate Admitted(env: Environment, deps: map<string, seq<string>>, completed: seq<string>, id: string,
                           i: nat, calls: nat, verdict: Verdict) {
    && !env.timedOut(i)
    && (calls > 0 ==> DependenciesDone(deps, completed, id) && env.rateAllows(i) && env.budgetBefore(i, 0))
    && (calls == 0 ==> verdict.Blocked?)
    && (calls == 0 ==> !DependenciesDone(deps, completed, id) || !env.rateAllows(i) || !env.budgetBefore(i, 0))
  }

  lemma SelectSnoc(ids: seq<string>, verdicts: seq<Verdict>, v: Verdict)
    requires |verdicts| < |ids|
    ensures forall w ::
      Select(ids[..|verdicts| + 1], verdicts + [v], w) ==
      Select(ids[..|verdicts|], verdicts, w) + if v == w then [ids[|verdicts|]] else []
  {
    var n := |verdicts|;
    assert ids[..n + 1][..n] == ids[..n] && (verdicts + [v])[..n] == verdicts;
  }

  lemma SelectNext(ids: seq<string>, verdicts: seq<Verdict>, v: Verdict, i: nat)
    requires i < |ids| == |verdicts|
    ensures Select(ids[..i + 1], verdicts[..i + 1], v) ==
      Select(ids[..i], verdicts[..i], v) + if verdicts[i] == v then [ids[i]] else []
  {
    assert ids[..i + 1][..i] == ids[..i] && verdicts[..i + 1][..i] == verdicts[..i];
  }

  lemma AccountsSnoc(env: Environment, limits: Limits, ids: seq<string>, deps: map<string, seq<string>>,
                     verdicts: seq<Verdict>, calls: seq<nat>, v: Verdict, n: nat)
    requires Accounts(env, limits, ids, deps, verdicts, calls) && |verdicts| < |ids|
    requires RetriesUsed(env, verdicts, calls) + RetriesOf(env, |verdicts|, n, v) <= AtLeastZero(limits.maxTotalRetries)
    requires Tried(env, limits, |verdicts|, n, v)
    requires Explained(env, limits, |verdicts|, n, v, RetriesUsed(env, verdicts, calls))
    requires Admitted(env, deps, Select(ids[..|verdicts|], verdicts, Completed), ids[|verdicts|], |verdicts|, n, v)
    ensures RetriesUsed(env, verdicts + [v], calls + [n]) == RetriesUsed(env, verdicts, calls) + RetriesOf(env, |verdicts|, n, v)
    ensures Accounts(env, limits, ids, deps, verdicts + [v], calls + [n])
  {
    assert (calls + [n])[..|calls|] == calls && (verdicts + [v])[..|verdicts|] == verdicts;
    forall i | 0 <= i < |verdicts| + 1
      ensures AccountedAt(env, limits, ids, deps, verdicts + [v], calls + [n], i)
    {
      if i < |verdicts| {
        assert AccountedAt(env, limits, ids, deps, verdicts, calls, i);
        assert (verdicts + [v])[..i] == verdicts[..i] && (calls + [n])[..i] == calls[..i];
      } else {
        assert (verdicts + [v])[..i] == verdicts && (calls + [n])[..i] == calls;
      }
    }
  }

  /** The whole loop, unless a timeout ends it. The three lists are the missions by
      verdict; executor calls and retries stay within both budgets; a mission is executed
      only when its dependencies have completed, and one that did not complete has a reason. */
  method ExecuteMissions(env: Environment, limits: Limits, ids: seq<string>, deps: map<string, seq<string>>)
    returns (r: RunResult, ghost verdicts: seq<Verdict>, ghost calls: seq<nat>)
    ensures r.TimedOut? <==> |verdicts| < |ids|
    ensures r.TimedOut? ==> env.timedOut(|verdicts|)
    ensures Accounts(env, limits, ids, deps, verdicts, calls)
    ensures r.Finished? ==>
      && r.completed == Select(ids, verdicts, Completed)
      && r.failed == Select(ids, verdicts, Failed)
      && r.blocked == Select(ids, verdicts, Blocked)
    ensures r.Finished? ==> r.retries == RetriesUsed(env, verdicts, calls) <= AtLeastZero(limits.maxTotalRetries)
    ensures r.Finished? ==> multiset(r.completed) + multiset(r.failed) + multiset(r.blocked) == multiset(ids)
    ensures r.Finished? ==> forall n, d :: 0 <= n < |r.completed| && d in DependenciesOf(deps, r.completed[n]) ==> d in r.completed[..n]
  {
    var totalRetries: nat := 0;
    var completed: seq<string>, failed: seq<string>, blocked: seq<string> := [], [], [];
    verdicts, calls := [], [];
    for i := 0 to |ids|
      invariant |verdicts| == i
      invariant Accounts(env, limits, ids, deps, verdicts, calls)
      invariant totalRetries == RetriesUsed(env, verdicts, calls)
      invariant completed == Select(ids[..i], verdicts, Completed)
      invariant failed == Select(ids[..i], verdicts, Failed)
      invariant blocked == Select(ids[..i], verdicts, Blocked)
    {
      if env.timedOut(i) {
        return TimedOut, verdicts, calls;
      }
      ghost var n;
      var verdict, total;
      verdict, total, n := ExecuteMission(env, limits, ids[i], i, deps, completed, totalRetries);
      if verdict.Completed? {
        completed := completed + [ids[i]];
      } else if verdict.Failed? {
        failed := failed + [ids[i]];
      } else {
        blocked := blocked + [ids[i]];
      }
      SelectSnoc(ids, verdicts, verdict);
      AccountsSnoc(env, limits, ids, deps, verdicts, calls, verdict, n);
      verdicts, calls, totalRetries := verdicts + [verdict], calls + [n], total;
    }
    assert ids[..|ids|] == ids;
    VerdictsPartition(ids, verdicts);
    AllAfterDependencies(env, limits, ids, deps, verdicts, calls);
    return Finished(completed, failed, blocked, totalRetries), verdicts, calls;
  }

  /** One mission: its dependencies and the rate are checked before it is attempted. */
  method ExecuteMission(env: Environment, limits: Limits, id: string, i: nat, deps: map<string, seq<string>>,
                        completed: seq<string>, total0: nat)
    returns (verdict: Verdict, total: nat, ghost calls: nat)
    requires total0 <= AtLeastZero(limits.maxTotalRetries) && !env.timedOut(i)
    ensures Tried(env, limits, i, calls, verdict) && Explained(env, limits, i, calls, verdict, total0)
    ensures Admitted(env, deps, completed, id, i, calls, verdict)
    ensures total == total0 + RetriesOf(env, i, calls, verdict) <= AtLeastZero(limits.maxTotalRetries)
  {
    verdict, total, calls := Blocked, total0, 0;
    if DependenciesDone(deps, completed, id) && env.rateAllows(i) {
      verdict, total, calls := AttemptMission(env, limits, i, total0);
    }
  }

  lemma AllAfterDependencies(env: Environment, limits: Limits, ids: seq<string>, deps: map<string, seq<string>>,
                             verdicts: seq<Verdict>, calls: seq<nat>)
    requires Accounts(env, limits, ids, deps, verdicts, calls) && |verdicts| == |ids|
    ensures var completed := Select(ids, verdicts, Completed);
      forall n, d :: 0 <= n < |completed| && d in DependenciesOf(deps, completed[n]) ==> d in completed[..n]
  {
    var completed := Select(ids, verdicts, Completed);
    forall n, d | 0 <= n < |completed| && d in DependenciesOf(deps, completed[n]) ensures d in completed[..n] {
      CompletedAfterDependencies(env, limits, ids, deps, verdicts, calls, n, d);
    }
  }

  // ----- consequences -----

  /** The missions with verdict `v`, each as often as it was listed. */
  function Tally(ids: seq<string>, verdicts: seq<Verdict>, v: Verdict): multiset<string>
    requires |ids| == |verdicts|
  {
    multiset(Select(ids, verdicts, v))
  }

  lemma TallyLast(ids: seq<string>, verdicts: seq<Verdict>, v: Verdict)
    requires |ids| == |verdicts| && ids != []
    ensures var n := |ids| - 1;
      Tally(ids, verdicts, v) == Tally(ids[..n], verdicts[..n], v) + if verdicts[n] == v then multiset{ids[n]} else multiset{}
  {
  }

  /** One more element in one of three parts is one more in all. */
  lemma Regroup(a: multiset<string>, b: multiset<string>, c: multiset<string>, v: Verdict, x: string)
    ensures var one, none := multiset{x}, multiset{};
      (a + if v.Completed? then one else none) + (b + if v.Failed? then one else none) + (c + if v.Blocked? then one else none)
      == a + b + c + one
  {
  }

  lemma MultisetLast(ids: seq<string>)
    requires ids != []
    ensures multiset(ids) == multiset(ids[..|ids| - 1]) + multiset{ids[|ids| - 1]}
  {
    assert ids == ids[..|ids| - 1] + [ids[|ids| - 1]];
  }

  /** Completed, failed and blocked together are the missions, each as often as it was listed. */
  lemma {:induction false} VerdictsPartition(ids: seq<string>, verdicts: seq<Verdict>)
    requires |ids| == |verdicts|
    ensures Tally(ids, verdicts, Completed) + Tally(ids, verdicts, Failed) + Tally(ids, verdicts, Blocked) == multiset(ids)
  {
    if ids != [] {
      var n := |ids| - 1;
      VerdictsPartition(ids[..n], verdicts[..n]);
      PartitionLast(ids, verdicts);
    }
  }

  lemma PartitionLast(ids: seq<string>, verdicts: seq<Verdict>)
    requires |ids| == |verdicts| && ids != []
    requires var n := |ids| - 1; var (i, v) := (ids[..n], verdicts[..n]);
      Tally(i, v, Completed) + Tally(i, v, Failed) + Tally(i, v, Blocked) == multiset(i)
    ensures Tally(ids, verdicts, Completed) + Tally(ids, verdicts, Failed) + Tally(ids, verdicts, Blocked) == multiset(ids)
  {
    var n := |ids| - 1;
    var a, b, c := Tally(ids[..n], verdicts[..n], Completed), Tally(ids[..n], verdicts[..n], Failed), Tally(ids[..n], verdicts[..n], Blocked);
    MultisetLast(ids);
    TallyLast(ids, verdicts, Completed);
    TallyLast(ids, verdicts, Failed);
    TallyLast(ids, verdicts, Blocked);
    Regroup(a, b, c, verdicts[n], ids[n]);
  }

  lemma {:induction false} SelectPrefix(ids: seq<string>, verdicts: seq<Verdict>, v: Verdict, k: nat)
    requires |ids| == |verdicts| && k <= |ids|
    ensures Select(ids[..k], verdicts[..k], v) <= Select(ids, verdicts, v)
    decreases |ids| - k
  {
    if k < |ids| {
      SelectPrefix(ids, verdicts, v, k + 1);
      assert ids[..k + 1][..k] == ids[..k] && verdicts[..k + 1][..k] == verdicts[..k];
    } else {
      assert ids[..k] == ids && verdicts[..k] == verdicts;
    }
  }

  lemma {:induction false} SelectedAt(ids: seq<string>, verdicts: seq<Verdict>, v: Verdict, n: nat) returns (i: nat)
    requires |ids| == |verdicts| && n < |Select(ids, verdicts, v)|
    ensures i < |ids| && verdicts[i] == v && ids[i] == Select(ids, verdicts, v)[n]
    ensures Select(ids[..i], verdicts[..i], v) == Select(ids, verdicts, v)[..n]
  {
    var last := |ids| - 1;
    var rest := Select(ids[..last], verdicts[..last], v);
    if n < |rest| {
      i := SelectedAt(ids[..last], verdicts[..last], v, n);
      assert ids[..last][..i] == ids[..i] && verdicts[..last][..i] == verdicts[..i];
      assert Select(ids, verdicts, v)[..n] == rest[..n];
    } else {
      i := last;
      assert Select(ids, verdicts, v)[..n] == rest;
    }
  }

  /** Each completed mission comes after all of its dependencies in the list of completed missions. */
  lemma CompletedAfterDependencies(env: Environment, limits: Limits, ids: seq<string>, deps: map<string, seq<string>>,
                                   verdicts: seq<Verdict>, calls: seq<nat>, n: nat, d: string)
    requires Accounts(env, limits, ids, deps, verdicts, calls) && |verdicts| == |ids|
    requires n < |Select(ids, verdicts, Completed)|
    requires d in DependenciesOf(deps, Select(ids, verdicts, Completed)[n])
    ensures d in Select(ids, verdicts, Completed)[..n]
  {
    var i := SelectedAt(ids, verdicts, Completed, n);
    assert AccountedAt(env, limits, ids, deps, verdicts, calls, i);
  }

  /** Nothing goes wrong from outside. */
  ghost predicate Smooth(env: Environment, n: nat) {
    forall i :: 0 <= i < n ==> SmoothAt(env, i)
  }

  ghost predicate SmoothAt(env: Environment, i: nat) {
    env.rateAllows(i) && env.budgetBefore(i, 0) && Succeeds(env, i, 0)
  }

  predicate DependenciesEarlier(ids: seq<string>, deps: map<string, seq<string>>) {
    forall i :: 0 <= i < |ids| ==> EarlierAt(ids, deps, i)
  }

  predicate EarlierAt(ids: seq<string>, deps: map<string, seq<string>>, i: nat)
    requires i < |ids|
  {
    DependenciesDone(deps, ids[..i], ids[i])
  }

  /** If every executor call succeeds and no limit interferes, the run completes every
      mission exactly when the mission list is in dependency order. */
  lemma SmoothRunCompletes(env: Environment, limits: Limits, ids: seq<string>, deps: map<string, seq<string>>,
                           verdicts: seq<Verdict>, calls: seq<nat>)
    requires Accounts(env, limits, ids, deps, verdicts, calls) && |verdicts| == |ids|
    requires Smooth(env, |ids|)
    ensures Select(ids, verdicts, Completed) == ids <==> DependenciesEarlier(ids, deps)
  {
    if DependenciesEarlier(ids, deps) {
      SmoothPrefixCompletes(env, limits, ids, deps, verdicts, calls, |ids|);
      CompletedSelected(ids, verdicts, |ids|);
      assert ids[..|ids|] == ids && verdicts[..|ids|] == verdicts;
    } else if Select(ids, verdicts, Completed) == ids {
      var i :| 0 <= i < |ids| && !EarlierAt(ids, deps, i);
      var d :| d in DependenciesOf(deps, ids[i]) && d !in ids[..i];
      CompletedAfterDependencies(env, limits, ids, deps, verdicts, calls, i, d);
    }
  }

  ghost predicate AllCompleted(verdicts: seq<Verdict>, k: nat)
    requires k <= |verdicts|
  {
    forall i :: 0 <= i < k ==> verdicts[i].Completed?
  }

  lemma {:induction false} SmoothPrefixCompletes(env: Environment, limits: Limits, ids: seq<string>, deps: map<string, seq<string>>,
                                                 verdicts: seq<Verdict>, calls: seq<nat>, k: nat)
    requires Accounts(env, limits, ids, deps, verdicts, calls) && |verdicts| == |ids|
    requires Smooth(env, |ids|) && DependenciesEarlier(ids, deps) && k <= |ids|
    ensures AllCompleted(verdicts, k)
  {
    if k > 0 {
      SmoothPrefixCompletes(env, limits, ids, deps, verdicts, calls, k - 1);
      SmoothStep(env, limits, ids, deps, verdicts, calls, k - 1);
    }
  }

  lemma {:induction false} CompletedSelected(ids: seq<string>, verdicts: seq<Verdict>, k: nat)
    requires |verdicts| == |ids| && k <= |ids| && AllCompleted(verdicts, k)
    ensures Select(ids[..k], verdicts[..k], Completed) == ids[..k]
  {
    if k > 0 {
      CompletedSelected(ids, verdicts, k - 1);
      SelectNext(ids, verdicts, Completed, k - 1);
      assert ids[..k] == ids[..k - 1] + [ids[k - 1]];
    }
  }

  lemma SmoothStep(env: Environment, limits: Limits, ids: seq<string>, deps: map<string, seq<string>>,
                   verdicts: seq<Verdict>, calls: seq<nat>, i: nat)
    requires Accounts(env, limits, ids, deps, verdicts, calls) && |verdicts| == |ids|
    requires Smooth(env, |ids|) && DependenciesEarlier(ids, deps) && i < |ids|
    requires AllCompleted(verdicts, i)
    ensures verdicts[i].Completed?
  {
    CompletedSelected(ids, verdicts, i);
    assert EarlierAt(ids, deps, i) && SmoothAt(env, i);
    assert AccountedAt(env, limits, ids, deps, verdicts, calls, i);
    FirstSuccessEnds(env, limits, i, calls[i], verdicts[i]);
  }

  /** Every call of a mission but the last was answered in a way that permits another try:
      it raised and was classified as retryable, or it failed retryably, in none of the five
      categories that are never retried and within the budget. */
  lemma RetriedOnlyWhenPermitted(env: Environment, limits: Limits, ids: seq<string>, deps: map<string, seq<string>>,
                                 verdicts: seq<Verdict>, calls: seq<nat>, i: nat, a: nat)
    requires Accounts(env, limits, ids, deps, verdicts, calls) && i < |verdicts| && a + 1 < calls[i]
    ensures var reply := env.execute(i, a);
      || (reply.Raised? && env.classifiedRetryable(i, a))
      || (reply.Replied? && !reply.success && reply.retryable && env.budgetAfter(i, a)
          && reply.category != "security" && reply.category != "compliance" && reply.category != "auth"
          && reply.category != "billing" && reply.category != "permission")
    ensures a + 1 <= limits.maxRetriesPerMission
  {
    assert AccountedAt(env, limits, ids, deps, verdicts, calls, i);
    assert MayRetry(env, i, a);
  }

  /** A security, compliance, auth, billing or permission failure is never retried: it
      answers the last call, and its mission fails if the budget check after it passes. */
  lemma NeverRetried(env: Environment, limits: Limits, ids: seq<string>, deps: map<string, seq<string>>,
                     verdicts: seq<Verdict>, calls: seq<nat>, i: nat, a: nat)
    requires Accounts(env, limits, ids, deps, verdicts, calls) && i < |verdicts| && a < calls[i]
    requires env.execute(i, a).Replied?
    requires env.execute(i, a).category in {"security", "compliance", "auth", "billing", "permission"}
    ensures a == calls[i] - 1
    ensures !env.execute(i, a).success ==> !verdicts[i].Completed?
    ensures !env.execute(i, a).success && env.budgetAfter(i, a) ==> verdicts[i].Failed?
  {
    if a + 1 < calls[i] {
      RetriedOnlyWhenPermitted(env, limits, ids, deps, verdicts, calls, i, a);
    }
    assert AccountedAt(env, limits, ids, deps, verdicts, calls, i);
  }

  /** A mission completes exactly when its last call was answered with a success that the
      budget check after it let pass, and then it used one call more than it retried. */
  lemma CompletesExactly(env: Environment, limits: Limits, ids: seq<string>, deps: map<string, seq<string>>,
                         verdicts: seq<Verdict>, calls: seq<nat>, i: nat)
    requires Accounts(env, limits, ids, deps, verdicts, calls) && i < |verdicts|
    ensures verdicts[i].Completed? <==>
      && calls[i] > 0
      && var reply := env.execute(i, calls[i] - 1);
         reply.Replied? && reply.success && env.budgetAfter(i, calls[i] - 1)
  {
    assert AccountedAt(env, limits, ids, deps, verdicts, calls, i);
  }

  /** When a mission was given up although its last reply permits a retry, a budget of
      retries was used up; the retries of the missions before it are their calls less one
      each, and one more where a retried call was refused by the budget check before it. */
  lemma GivenUpOnlyWhenSpent(env: Environment, limits: Limits, ids: seq<string>, deps: map<string, seq<string>>,
                             verdicts: seq<Verdict>, calls: seq<nat>, i: nat)
    requires Accounts(env, limits, ids, deps, verdicts, calls) && i < |verdicts| && verdicts[i].Failed? && calls[i] > 0
    requires var reply := env.execute(i, calls[i] - 1);
      if reply.Raised? then env.classifiedRetryable(i, calls[i] - 1)
      else !reply.success && reply.retryable && env.budgetAfter(i, calls[i] - 1)
           && reply.category !in {"security", "compliance", "auth", "billing", "permission"}
    ensures calls[i] - 1 >= limits.maxRetriesPerMission
         || RetriesUsed(env, verdicts[..i], calls[..i]) + calls[i] - 1 >= limits.maxTotalRetries
  {
    assert AccountedAt(env, limits, ids, deps, verdicts, calls, i);
  }

  lemma {:induction false} SelectMembers(ids: seq<string>, verdicts: seq<Verdict>, v: Verdict, d: string)
    requires |ids| == |verdicts|
    ensures d in Select(ids, verdicts, v) <==> exists k :: 0 <= k < |ids| && ids[k] == d && verdicts[k] == v
  {
    if ids != [] {
      var n := |ids| - 1;
      SelectMembers(ids[..n], verdicts[..n], v, d);
      if d in Select(ids[..n], verdicts[..n], v) {
        var k :| 0 <= k < n && ids[..n][k] == d && verdicts[..n][k] == v;
        assert ids[k] == d && verdicts[k] == v;
      }
      if exists k :: 0 <= k < |ids| && ids[k] == d && verdicts[k] == v {
        var k :| 0 <= k < |ids| && ids[k] == d && verdicts[k] == v;
        assert k < n ==> ids[..n][k] == d && verdicts[..n][k] == v;
      }
    }
  }

  /** A mission with this id completed before position `i`. */
  predicate CompletedBefore(ids: seq<string>, verdicts: seq<Verdict>, i: nat, d: string)
    requires i <= |verdicts| <= |ids|
  {
    exists k :: 0 <= k < i && ids[k] == d && verdicts[k].Completed?
  }

  /** A mission is given to the executor exactly if each of its dependencies completed before
      it, the rate allows it and the budget check before its first call passes. */
  lemma ExecutedExactly(env: Environment, limits: Limits, ids: seq<string>, deps: map<string, seq<string>>,
                        verdicts: seq<Verdict>, calls: seq<nat>, i: nat)
    requires Accounts(env, limits, ids, deps, verdicts, calls) && i < |verdicts|
    ensures !env.timedOut(i)
    ensures calls[i] > 0 ==>
      && (ids[i] in deps ==> forall d :: d in deps[ids[i]] ==> CompletedBefore(ids, verdicts, i, d))
      && env.rateAllows(i) && env.budgetBefore(i, 0)
    ensures calls[i] == 0 ==>
      && verdicts[i].Blocked?
      && (|| (ids[i] in deps && exists d :: d in deps[ids[i]] && !CompletedBefore(ids, verdicts, i, d))
          || !env.rateAllows(i) || !env.budgetBefore(i, 0))
  {
    assert AccountedAt(env, limits, ids, deps, verdicts, calls, i);
    forall d ensures d in Select(ids[..i], verdicts[..i], Completed) <==> CompletedBefore(ids, verdicts, i, d) {
      SelectMembers(ids[..i], verdicts[..i], Completed, d);
      if CompletedBefore(ids, verdicts, i, d) {
        var k :| 0 <= k < i && ids[k] == d && verdicts[k].Completed?;
        assert ids[..i][k] == d && verdicts[..i][k].Completed?;
      }
    }
  }

  /** A success is never retried. */
  lemma FirstSuccessEnds(env: Environment, limits: Limits, i: nat, calls: nat, verdict: Verdict)
    requires Tried(env, limits, i, calls, verdict) && calls > 0 && Succeeds(env, i, 0)
    ensures calls == 1 && verdict.Completed?
  {
    assert calls > 1 ==> MayRetry(env, i, 0);
  }
}
