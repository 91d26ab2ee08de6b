/** Routing one request to the first provider that settles it, with failover. */
module RuntimeRouter {
  import opened Outcomes
  import opened Digraph
  import opened Ordering
  import opened Text
  import Payloads

  datatype Status = Succeeded | FailedRun | BlockedRun | Cancelled | TimedOutRun | Unavailable

  datatype RunResult = RunResult(status: Status, provider: string, reason: string, changedFiles: bool)

  datatype Health = HealthRaised | Unhealthy | Healthy

  datatype Reply = Replied(result: RunResult) | Raised(kind: string)

  /** A registered provider and how its one attempt would go: the workspace manager's, the
      adapter's and the publisher's answers, and the state of the canonical checkout after it. */
  datatype Provider = Provider(
    capable: bool,
    health: Health,
    workspaceError: Option<string>,
    reply: Reply,
    published: Reply,
    removed: bool,
    cleanAfter: bool)

  type Registry = map<string, Provider>

  const FAILOVER_REASON_MARKERS: seq<string> := [
    "runtime_incompatible", "runtime_unavailable", "process_start_failed", "workspace_unavailable",
    "runtime_adapter_exception", "agent_exec_failed", "connection", "network", "quota_exhausted", "insufficient_quota"]

  const NO_FAILOVER_REASON_MARKERS: seq<string> := [
    "credentials_unavailable", "permission_denied", "refuses_canonical_workspace",
    "changed_paths_outside_authorized_scope", "canonical_repository_not_clean", "approval"]

  const QUOTA_MARKERS: seq<string> := ["quota_exhausted", "insufficient_quota"]

  predicate Contains(s: string, part: string) {
    exists i :: 0 <= i <= |s| && part <= s[i..]
  }

  predicate MentionsAny(reason: string, markers: seq<string>) {
    exists i :: 0 <= i < |markers| && Contains(Payloads.Lower(reason), markers[i])
  }

  predicate CanFailover(r: RunResult) {
    if MentionsAny(r.reason, NO_FAILOVER_REASON_MARKERS) then false
    else if r.status.BlockedRun? && !MentionsAny(r.reason, QUOTA_MARKERS) then false
    else r.status.Unavailable? || MentionsAny(r.reason, FAILOVER_REASON_MARKERS)
  }

  // ----- candidates -----

  function Normalise(name: string): string {
    Payloads.Lower(Strip(name))
  }

  function NormaliseAll(names: seq<string>): seq<string> {
    seq(|names|, i requires 0 <= i < |names| => Normalise(names[i]))
  }

  /** The nonempty names in order of first occurrence. */
  function FirstOccurrences(names: seq<string>): seq<string> {
    if names == [] then []
    else
      var rest, last := FirstOccurrences(names[..|names| - 1]), names[|names| - 1];
      if last != "" && last !in rest then rest + [last] else rest
  }

  lemma {:induction false} FirstOccurrencesFacts(names: seq<string>)
    ensures Distinct(FirstOccurrences(names))
    ensures forall n :: n in FirstOccurrences(names) <==> n in names && n != ""
  {
    if names != [] {
      var rest, last := names[..|names| - 1], names[|names| - 1];
      FirstOccurrencesFacts(rest);
      assert names == rest + [last];
    }
  }

  method CandidateNames(preferred: seq<string>, registered: seq<string>) returns (result: seq<string>)
    ensures result == FirstOccurrences(NormaliseAll(preferred) + registered)
  {
    var ordered := NormaliseAll(preferred) + registered;
    result := [];
    for i := 0 to |ordered|
      invariant result == FirstOccurrences(ordered[..i])
    {
      assert ordered[..i + 1][..i] == ordered[..i];
      if ordered[i] != "" && ordered[i] !in result {
        result := result + [ordered[i]];
      }
    }
    assert ordered[..|ordered|] == ordered;
  }

  // ----- one attempt -----

  datatype Event = Created(provider: string) | Executed(provider: string) | Removed(provider: string)

  /** The outcome of executing in the workspace, before it is removed. */
  function Executing(name: string, p: Provider, publishes: bool): RunResult {
    match p.reply
    case Raised(kind) => RunResult(FailedRun, name, "runtime_adapter_exception:" + kind, false)
    case Replied(result) =>
      if publishes && result.status.Succeeded? && result.changedFiles then
        match p.published
        case Raised(kind) => RunResult(FailedRun, name, "runtime_adapter_exception:" + kind, false)
        case Replied(published) => published
      else result
  }

  function Attempt(name: string, p: Provider, publishes: bool): RunResult {
    if p.workspaceError.Some? then RunResult(FailedRun, "mitigate-router", p.workspaceError.value, false)
    else
      var r := Executing(name, p, publishes);
      if !p.removed && r.status.Succeeded? then
        RunResult(FailedRun, name, "disposable_workspace_cleanup_failed", r.changedFiles)
      else r
  }

  function AttemptEvents(name: string, p: Provider): seq<Event> {
    if p.workspaceError.Some? then [] else [Created(name), Executed(name), Removed(name)]
  }

  /** Nothing goes wrong from the workspace to its removal. */
  predicate GoesWell(p: Provider, publishes: bool) {
    && p.workspaceError.None? && p.removed
    && p.reply.Replied? && p.reply.result.status.Succeeded?
    && (publishes && p.reply.result.changedFiles ==> p.published.Replied? && p.published.result.status.Succeeded?)
  }

  /** One attempt. It succeeds exactly when nothing goes wrong on the way, so a success is
      taken back when publishing or the removal fails; a workspace that was created is
      removed, once and last, whatever happened in it; one that was not is the error. */
  method ExecuteOne(name: string, p: Provider, publishes: bool) returns (result: RunResult, events: seq<Event>)
    ensures result.status.Succeeded? <==> GoesWell(p, publishes)
    ensures p.workspaceError.Some? ==> events == [] && result.status.FailedRun? && result.reason == p.workspaceError.value
    ensures p.workspaceError.None? ==> events == [Created(name), Executed(name), Removed(name)]
    ensures !p.removed && p.workspaceError.None? ==>
      result.reason == "disposable_workspace_cleanup_failed" || !GoesWell(p.(removed := true), publishes)
    ensures result == Attempt(name, p, publishes)
    ensures events == AttemptEvents(name, p)
  {
    if p.workspaceError.Some? {
      return RunResult(FailedRun, "mitigate-router", p.workspaceError.value, false), [];
    }
    events := [Created(name)];
    events := events + [Executed(name)];
    if p.reply.Raised? {
      result := RunResult(FailedRun, name, "runtime_adapter_exception:" + p.reply.kind, false);
    } else {
      result := p.reply.result;
      if publishes && result.status.Succeeded? && result.changedFiles {
        result := if p.published.Raised? then RunResult(FailedRun, name, "runtime_adapter_exception:" + p.published.kind, false)
                  else p.published.result;
      }
    }
    events := events + [Removed(name)];
    if !p.removed && result.status.Succeeded? {
      result := RunResult(FailedRun, name, "disposable_workspace_cleanup_failed", result.changedFiles);
    }
  }

  // ----- the whole request -----

  predicate Eligible(registry: Registry, name: string) {
    name in registry && registry[name].capable && registry[name].health.Healthy?
  }

  function EligibleNames(registry: Registry, names: seq<string>): seq<string> {
    if names == [] then []
    else
      EligibleNames(registry, names[..|names| - 1])
      + if Eligible(registry, names[|names| - 1]) then [names[|names| - 1]] else []
  }

  lemma {:induction false} EligibleNamesFacts(registry: Registry, names: seq<string>)
    requires Distinct(names)
    ensures Distinct(EligibleNames(registry, names))
    ensures forall n :: n in EligibleNames(registry, names) <==> n in names && Eligible(registry, n)
  {
    if names != [] {
      var rest, last := names[..|names| - 1], names[|names| - 1];
      EligibleNamesFacts(registry, rest);
      assert names == rest + [last];
      assert forall i :: 0 <= i < |rest| ==> names[i] != names[|names| - 1];
    }
  }

  lemma EligibleSnoc(registry: Registry, names: seq<string>, i: nat)
    requires i < |names|
    ensures EligibleNames(registry, names[..i + 1]) ==
      EligibleNames(registry, names[..i]) + if Eligible(registry, names[i]) then [names[i]] else []
  {
    assert names[..i + 1][..i] == names[..i];
  }

  lemma {:induction false} EligiblePrefix(registry: Registry, names: seq<string>, i: nat)
    requires i <= |names|
    ensures EligibleNames(registry, names[..i]) <= EligibleNames(registry, names)
    decreases |names| - i
  {
    if i < |names| {
      EligiblePrefix(registry, names, i + 1);
      EligibleSnoc(registry, names, i);
    } else {
      assert names[..i] == names;
    }
  }

  /** The attempt settles the request: a dirty checkout, a success, or a failure that may
      not fail over. */
  predicate Decisive(registry: Registry, name: string, publishes: bool) {
    name in registry &&
    var p := registry[name];
    !p.cleanAfter || Attempt(name, p, publishes).status.Succeeded? || !CanFailover(Attempt(name, p, publishes))
  }

  /** The answer given when the request stops at `name`. */
  function AnswerAt(name: string, p: Provider, publishes: bool): RunResult {
    if p.cleanAfter then Attempt(name, p, publishes)
    else RunResult(BlockedRun, name, "canonical_repository_changed_during_external_execution",
                   Attempt(name, p, publishes).changedFiles)
  }

  /** `executed` is the eligible names up to and including the first decisive one, or all of them. */
  ghost predicate StopsAtFirstDecisive(registry: Registry, eligible: seq<string>, executed: seq<string>, publishes: bool) {
    && executed <= eligible
    && (forall i :: 0 <= i < |executed| - 1 ==> !Decisive(registry, executed[i], publishes))
    && (|executed| < |eligible| ==> executed != [] && Decisive(registry, executed[|executed| - 1], publishes))
  }

  /** What is executed of the eligible names. */
  function UpToDecisive(registry: Registry, eligible: seq<string>, publishes: bool): seq<string> {
    if eligible == [] then []
    else if Decisive(registry, eligible[0], publishes) then [eligible[0]]
    else [eligible[0]] + UpToDecisive(registry, eligible[1..], publishes)
  }

  /** The two ways to say where execution stops agree. */
  lemma {:induction false} StopsExactly(registry: Registry, eligible: seq<string>, executed: seq<string>, publishes: bool)
    ensures StopsAtFirstDecisive(registry, eligible, executed, publishes) <==>
      executed == UpToDecisive(registry, eligible, publishes)
  {
    if eligible != [] {
      if executed == [] {
        assert !StopsAtFirstDecisive(registry, eligible, executed, publishes);
      } else if executed[0] == eligible[0] {
        assert executed == [executed[0]] + executed[1..];
        StopsExactly(registry, eligible[1..], executed[1..], publishes);
        StopsLater(registry, eligible, executed, publishes);
      }
    }
  }

  lemma StopsLater(registry: Registry, eligible: seq<string>, executed: seq<string>, publishes: bool)
    requires eligible != [] && executed != [] && executed[0] == eligible[0]
    ensures StopsAtFirstDecisive(registry, eligible, executed, publishes) <==>
      if Decisive(registry, eligible[0], publishes) then |executed| == 1
      else StopsAtFirstDecisive(registry, eligible[1..], executed[1..], publishes)
  {
    assert executed <= eligible <==> executed[1..] <= eligible[1..] by {
      assert executed == [executed[0]] + executed[1..] && eligible == [eligible[0]] + eligible[1..];
    }
    if |executed| > 1 {
      assert executed[1..][|executed| - 2] == executed[|executed| - 1];
      assert StopsAtFirstDecisive(registry, eligible, executed, publishes) ==> !Decisive(registry, executed[0], publishes);
      forall i | 0 <= i < |executed| - 1
        ensures executed[i] == if i == 0 then eligible[0] else executed[1..][i - 1]
      {
      }
    }
  }

  function AllEvents(registry: Registry, executed: seq<string>): seq<Event> {
    if executed == [] then []
    else
      var last := executed[|executed| - 1];
      AllEvents(registry, executed[..|executed| - 1]) + if last in registry then AttemptEvents(last, registry[last]) else []
  }

  const NOT_CLEAN := RunResult(BlockedRun, "mitigate-router", "canonical_repository_not_clean", false)
  const NO_PROVIDER := RunResult(Unavailable, "mitigate-router", "no_healthy_runtime_available", false)

  /** The candidates: preferred names first, then the registered names sorted. `registered`
      lists the registry's names in the order of registration. */
  function Candidates(preferred: seq<string>, registered: seq<string>): seq<string> {
    FirstOccurrences(NormaliseAll(preferred) + SortBy(LexLess, registered))
  }

  /** After the first `i` candidates, none decisive. */
  ghost predicate Passed(registry: Registry, names: seq<string>, i: nat, executed: seq<string>, events: seq<Event>, publishes: bool)
    requires i <= |names|
  {
    && executed == EligibleNames(registry, names[..i])
    && events == AllEvents(registry, executed)
    && (forall k :: 0 <= k < |executed| ==> executed[k] in registry && !Decisive(registry, executed[k], publishes))
  }

  lemma PassOne(registry: Registry, names: seq<string>, i: nat, executed: seq<string>, events: seq<Event>, publishes: bool)
    requires i < |names| && Passed(registry, names, i, executed, events, publishes)
    ensures !Eligible(registry, names[i]) ==> Passed(registry, names, i + 1, executed, events, publishes)
    ensures Eligible(registry, names[i]) ==>
      var longer, more := executed + [names[i]], events + AttemptEvents(names[i], registry[names[i]]);
      && longer == EligibleNames(registry, names[..i + 1]) && more == AllEvents(registry, longer)
      && (!Decisive(registry, names[i], publishes) ==> Passed(registry, names, i + 1, longer, more, publishes))
      && (Decisive(registry, names[i], publishes) ==>
            longer == UpToDecisive(registry, EligibleNames(registry, names), publishes))
  {
    EligibleSnoc(registry, names, i);
    EligiblePrefix(registry, names, i + 1);
    if Eligible(registry, names[i]) {
      AllEventsSnoc(registry, executed, names[i]);
      StopsExactly(registry, EligibleNames(registry, names), executed + [names[i]], publishes);
    }
  }

  /** The answer that belongs to what was executed. */
  ghost predicate Answers(registry: Registry, executed: seq<string>, publishes: bool, result: RunResult) {
    if executed == [] then result == NO_PROVIDER
    else
      var last := executed[|executed| - 1];
      last in registry && result == AnswerAt(last, registry[last], publishes)
  }

  /** A provider that settles nothing: it fails over a clean checkout and may fail over. */
  predicate PassedOver(p: Provider, name: string, publishes: bool) {
    p.cleanAfter && !GoesWell(p, publishes) && CanFailover(Attempt(name, p, publishes))
  }

  /** The `i`th eligible provider goes well over a clean checkout after all before it were passed over. */
  ghost predicate WinsAt(registry: Registry, eligible: seq<string>, publishes: bool, i: nat)
    requires forall n :: n in eligible ==> n in registry
  {
    && i < |eligible|
    && registry[eligible[i]].cleanAfter && GoesWell(registry[eligible[i]], publishes)
    && forall j :: 0 <= j < i ==> PassedOver(registry[eligible[j]], eligible[j], publishes)
  }

  /** One attempt and the three checks after it. */
  method TryProvider(registry: Registry, name: string, publishes: bool) returns (stop: bool, result: RunResult, events: seq<Event>)
    requires name in registry
    ensures stop <==> Decisive(registry, name, publishes)
    ensures result == AnswerAt(name, registry[name], publishes)
    ensures events == AttemptEvents(name, registry[name])
  {
    result, events := ExecuteOne(name, registry[name], publishes);
    if !registry[name].cleanAfter {
      result := RunResult(BlockedRun, name, "canonical_repository_changed_during_external_execution", result.changedFiles);
      return true, result, events;
    }
    stop := result.status.Succeeded? || !CanFailover(result);
  }

  /** Tries the eligible candidates in order until one is decisive. Nothing runs on a dirty
      checkout; with no eligible candidate the answer is that no healthy runtime is
      available, and there is no other way to reach the end without a provider's result. The
      request succeeds exactly when some eligible candidate goes well over a clean checkout
      and each one before it was passed over. */
  method Execute(registry: Registry, registered: seq<string>, cleanBefore: bool, preferred: seq<string>, publishes: bool)
    returns (result: RunResult, events: seq<Event>)
    ensures !cleanBefore ==> result == NOT_CLEAN && events == []
    ensures cleanBefore ==>
      var executed := UpToDecisive(registry, EligibleNames(registry, Candidates(preferred, registered)), publishes);
      events == AllEvents(registry, executed) && Answers(registry, executed, publishes, result)
    ensures var eligible := EligibleNames(registry, Candidates(preferred, registered));
      && (forall n :: n in eligible <==>
            n in Candidates(preferred, registered) && n in registry && registry[n].capable && registry[n].health.Healthy?)
      && (result.status.Succeeded? <==> cleanBefore && exists i :: WinsAt(registry, eligible, publishes, i))
  {
    FirstOccurrencesFacts(NormaliseAll(preferred) + SortBy(LexLess, registered));
    EligibleNamesFacts(registry, Candidates(preferred, registered));
    if !cleanBefore {
      return NOT_CLEAN, [];
    }
    var candidates := CandidateNames(preferred, SortBy(LexLess, registered));
    result, events := TryInOrder(registry, candidates, publishes);
    SucceedsExactly(registry, EligibleNames(registry, candidates), publishes, result);
  }

  lemma PassedAll(registry: Registry, names: seq<string>, executed: seq<string>, events: seq<Event>, publishes: bool)
    requires Passed(registry, names, |names|, executed, events, publishes)
    ensures executed == UpToDecisive(registry, EligibleNames(registry, names), publishes)
  {
    assert names[..|names|] == names;
    StopsExactly(registry, EligibleNames(registry, names), executed, publishes);
  }

  /** The failover loop. */
  method TryInOrder(registry: Registry, candidates: seq<string>, publishes: bool) returns (result: RunResult, events: seq<Event>)
    ensures var executed := UpToDecisive(registry, EligibleNames(registry, candidates), publishes);
      events == AllEvents(registry, executed) && Answers(registry, executed, publishes, result)
  {
    events := [];
    ghost var executed: seq<string> := [];
    var lastResult: Option<RunResult> := None;
    var executableCandidates := 0;
    for i := 0 to |candidates|
      invariant Passed(registry, candidates, i, executed, events, publishes)
      invariant executableCandidates == |executed|
      invariant lastResult.None? <==> executed == []
      invariant lastResult.Some? ==> Answers(registry, executed, publishes, lastResult.value)
    {
      var name := candidates[i];
      PassOne(registry, candidates, i, executed, events, publishes);
      if name !in registry || !registry[name].capable || !registry[name].health.Healthy? {
        continue;
      }
      executableCandidates := executableCandidates + 1;
      var one, stop;
      stop, result, one := TryProvider(registry, name, publishes);
      lastResult := Some(result);
      events, executed := events + one, executed + [name];
      if stop {
        return;
      }
    }
    PassedAll(registry, candidates, executed, events, publishes);
    if lastResult.Some? {
      return lastResult.value, events;
    }
    return if executableCandidates == 0 then NO_PROVIDER
           else RunResult(Unavailable, "mitigate-router", "runtime_provider_failover_exhausted", false), events;
  }

  lemma AllEventsSnoc(registry: Registry, executed: seq<string>, name: string)
    requires name in registry
    ensures AllEvents(registry, executed + [name]) == AllEvents(registry, executed) + AttemptEvents(name, registry[name])
  {
    assert (executed + [name])[..|executed|] == executed;
  }

  // ----- consequences -----

  /** Each provider is tried at most once, and everything tried was registered and eligible. */
  lemma TriedOnce(registry: Registry, names: seq<string>, publishes: bool)
    ensures var executed := UpToDecisive(registry, EligibleNames(registry, FirstOccurrences(names)), publishes);
      Distinct(executed) && forall n :: n in executed ==> n in names && Eligible(registry, n)
  {
    var executed := UpToDecisive(registry, EligibleNames(registry, FirstOccurrences(names)), publishes);
    StopsExactly(registry, EligibleNames(registry, FirstOccurrences(names)), executed, publishes);
    FirstOccurrencesFacts(names);
    EligibleNamesFacts(registry, FirstOccurrences(names));
    forall n | n in executed ensures n in EligibleNames(registry, FirstOccurrences(names)) {
      var i :| 0 <= i < |executed| && executed[i] == n;
      assert EligibleNames(registry, FirstOccurrences(names))[i] == n;
    }
  }

  lemma DecisiveExactly(registry: Registry, name: string, publishes: bool)
    requires name in registry
    ensures Decisive(registry, name, publishes) <==> !PassedOver(registry[name], name, publishes)
    ensures AnswerAt(name, registry[name], publishes).status.Succeeded? <==>
      registry[name].cleanAfter && GoesWell(registry[name], publishes)
  {
  }

  /** The request succeeds exactly when some eligible provider goes well over a clean
      checkout and each one before it was passed over. */
  lemma SucceedsExactly(registry: Registry, eligible: seq<string>, publishes: bool, result: RunResult)
    requires forall n :: n in eligible ==> n in registry
    requires Answers(registry, UpToDecisive(registry, eligible, publishes), publishes, result)
    ensures result.status.Succeeded? <==> exists i :: WinsAt(registry, eligible, publishes, i)
  {
    var executed := UpToDecisive(registry, eligible, publishes);
    StopsExactly(registry, eligible, executed, publishes);
    if executed != [] {
      var last := |executed| - 1;
      assert executed[last] == eligible[last] && eligible[last] in eligible;
      DecisiveExactly(registry, eligible[last], publishes);
      if result.status.Succeeded? {
        LastWins(registry, eligible, executed, publishes);
      }
      if exists i :: WinsAt(registry, eligible, publishes, i) {
        var i: nat :| WinsAt(registry, eligible, publishes, i);
        WinnerIsLast(registry, eligible, executed, publishes, i);
      }
    }
  }

  lemma LastWins(registry: Registry, eligible: seq<string>, executed: seq<string>, publishes: bool)
    requires forall n :: n in eligible ==> n in registry
    requires StopsAtFirstDecisive(registry, eligible, executed, publishes) && executed != []
    requires var last := eligible[|executed| - 1]; registry[last].cleanAfter && GoesWell(registry[last], publishes)
    ensures WinsAt(registry, eligible, publishes, |executed| - 1)
  {
    forall j | 0 <= j < |executed| - 1 ensures PassedOver(registry[eligible[j]], eligible[j], publishes) {
      assert executed[j] == eligible[j] && eligible[j] in eligible;
      DecisiveExactly(registry, eligible[j], publishes);
    }
  }

  lemma WinnerIsLast(registry: Registry, eligible: seq<string>, executed: seq<string>, publishes: bool, i: nat)
    requires forall n :: n in eligible ==> n in registry
    requires WinsAt(registry, eligible, publishes, i) && StopsAtFirstDecisive(registry, eligible, executed, publishes)
    ensures |executed| == i + 1
  {
    forall j | 0 <= j <= i
      ensures eligible[j] in registry && (Decisive(registry, eligible[j], publishes) <==> j == i)
    {
      assert eligible[j] in eligible;
      DecisiveExactly(registry, eligible[j], publishes);
    }
    assert forall j :: 0 <= j < |executed| ==> executed[j] == eligible[j];
  }

  /** A failure whose reason has a protected marker ends the request: whatever else the
      reason says and whoever comes next, that provider is the last one executed and its
      answer is the answer. */
  lemma ProtectedReasonsAreTerminal(registry: Registry, eligible: seq<string>, publishes: bool, result: RunResult, i: nat)
    requires Answers(registry, UpToDecisive(registry, eligible, publishes), publishes, result)
    requires i < |UpToDecisive(registry, eligible, publishes)|
    requires var name := UpToDecisive(registry, eligible, publishes)[i];
      name in registry && MentionsAny(Attempt(name, registry[name], publishes).reason, NO_FAILOVER_REASON_MARKERS)
    ensures |UpToDecisive(registry, eligible, publishes)| == i + 1
    ensures var name := UpToDecisive(registry, eligible, publishes)[i];
      result == AnswerAt(name, registry[name], publishes)
  {
    var executed := UpToDecisive(registry, eligible, publishes);
    StopsExactly(registry, eligible, executed, publishes);
    assert Decisive(registry, executed[i], publishes);
  }

  // ----- the failover rule -----

  /** Some part of the reason is the marker, in any letter case. */
  predicate Mentions(reason: string, marker: string) {
    exists k: nat :: k <= |reason| && StandsAt(reason, marker, k)
  }

  predicate StandsAt(reason: string, marker: string, k: nat) {
    k + |marker| <= |reason| && Payloads.Lower(reason[k..k + |marker|]) == marker
  }

  predicate NamesOne(reason: string, markers: set<string>) {
    exists m :: m in markers && Mentions(reason, m)
  }

  lemma ContainsExactly(reason: string, marker: string)
    ensures Contains(Payloads.Lower(reason), marker) <==> Mentions(reason, marker)
  {
    var low := Payloads.Lower(reason);
    forall k: nat | k <= |low| ensures marker <= low[k..] <==> StandsAt(reason, marker, k) {
      if k + |marker| <= |low| {
        assert low[k..][..|marker|] == low[k..k + |marker|] == Payloads.Lower(reason[k..k + |marker|]);
      }
    }
  }

  lemma MarkersExactly(reason: string, list: seq<string>, markers: set<string>)
    requires forall m :: m in list <==> m in markers
    ensures MentionsAny(reason, list) <==> NamesOne(reason, markers)
  {
    forall m ensures Contains(Payloads.Lower(reason), m) <==> Mentions(reason, m) {
      ContainsExactly(reason, m);
    }
    if MentionsAny(reason, list) {
      var i :| 0 <= i < |list| && Contains(Payloads.Lower(reason), list[i]);
      assert list[i] in markers && Mentions(reason, list[i]);
    }
    if NamesOne(reason, markers) {
      var m :| m in markers && Mentions(reason, m);
      var i :| 0 <= i < |list| && list[i] == m;
      assert Contains(Payloads.Lower(reason), list[i]);
    }
  }

  /** The failures that let the next provider try: no protected marker in the reason and
      either an unavailable provider, a marker of a runtime failure and no block, or a block
      that names a quota. */
  predicate LetsNextTry(r: RunResult) {
    && !NamesOne(r.reason, {"credentials_unavailable", "permission_denied", "refuses_canonical_workspace",
                            "changed_paths_outside_authorized_scope", "canonical_repository_not_clean", "approval"})
    && (|| r.status.Unavailable?
        || (!r.status.BlockedRun?
            && NamesOne(r.reason, {"runtime_incompatible", "runtime_unavailable", "process_start_failed",
                                   "workspace_unavailable", "runtime_adapter_exception", "agent_exec_failed",
                                   "connection", "network", "quota_exhausted", "insufficient_quota"}))
        || (r.status.BlockedRun? && NamesOne(r.reason, {"quota_exhausted", "insufficient_quota"})))
  }

  lemma FailoverExactly(r: RunResult)
    ensures CanFailover(r) <==> LetsNextTry(r)
  {
    MarkersExactly(r.reason, NO_FAILOVER_REASON_MARKERS,
                   {"credentials_unavailable", "permission_denied", "refuses_canonical_workspace",
                    "changed_paths_outside_authorized_scope", "canonical_repository_not_clean", "approval"});
    MarkersExactly(r.reason, QUOTA_MARKERS, {"quota_exhausted", "insufficient_quota"});
    MarkersExactly(r.reason, FAILOVER_REASON_MARKERS,
                   {"runtime_incompatible", "runtime_unavailable", "process_start_failed", "workspace_unavailable",
                    "runtime_adapter_exception", "agent_exec_failed", "connection", "network",
                    "quota_exhausted", "insufficient_quota"});
    QuotaIsMarker(r.reason);
  }

  lemma QuotaIsMarker(reason: string)
    ensures MentionsAny(reason, QUOTA_MARKERS) ==> MentionsAny(reason, FAILOVER_REASON_MARKERS)
  {
    assert FAILOVER_REASON_MARKERS[8] == QUOTA_MARKERS[0] && FAILOVER_REASON_MARKERS[9] == QUOTA_MARKERS[1];
  }

  /** A provider that fails over a clean checkout hands on to the next eligible one exactly
      if its failure lets it; otherwise it is the last one executed. A success and a dirty
      checkout always end the request. */
  lemma HandsOnExactly(registry: Registry, eligible: seq<string>, publishes: bool, i: nat)
    requires forall n :: n in eligible ==> n in registry
    requires i < |UpToDecisive(registry, eligible, publishes)| && i + 1 < |eligible|
    ensures UpToDecisive(registry, eligible, publishes) <= eligible
    ensures var p := registry[eligible[i]];
      i + 1 < |UpToDecisive(registry, eligible, publishes)| <==>
        && p.cleanAfter && !GoesWell(p, publishes)
        && LetsNextTry(Attempt(eligible[i], p, publishes))
  {
    var executed := UpToDecisive(registry, eligible, publishes);
    StopsExactly(registry, eligible, executed, publishes);
    assert executed[i] == eligible[i] && eligible[i] in eligible;
    DecisiveExactly(registry, eligible[i], publishes);
    FailoverExactly(Attempt(eligible[i], registry[eligible[i]], publishes));
  }

  /** What the last provider executed answers for the request: its own result over a clean
      checkout, and a block that says so over a dirty one. */
  lemma AnswerSpelledOut(registry: Registry, executed: seq<string>, publishes: bool, result: RunResult)
    requires Answers(registry, executed, publishes, result)
    ensures executed == [] ==> result == RunResult(Unavailable, "mitigate-router", "no_healthy_runtime_available", false)
    ensures executed != [] ==>
      var name := executed[|executed| - 1];
      && name in registry
      && (registry[name].cleanAfter ==> result == Attempt(name, registry[name], publishes))
      && (!registry[name].cleanAfter ==>
            result.status.BlockedRun? && result.provider == name
            && result.reason == "canonical_repository_changed_during_external_execution")
  {
  }

  // ----- the order of the candidates -----

  lemma {:induction false} FirstOccurrencesAppend(a: seq<string>, b: seq<string>)
    ensures FirstOccurrences(a) <= FirstOccurrences(a + b)
    ensures forall n :: n in FirstOccurrences(a + b)[|FirstOccurrences(a)|..] ==> n in b && n !in a
  {
    if b == [] {
      assert a + b == a;
    } else {
      var rest, last := b[..|b| - 1], b[|b| - 1];
      FirstOccurrencesAppend(a, rest);
      FirstOccurrencesFacts(a + rest);
      assert (a + b)[..|a + b| - 1] == a + rest;
      assert b == rest + [last];
    }
  }

  /** Preferred names come first, in the order of preference, stripped and in lower case;
      after them come only other registered names. */
  lemma PreferredFirst(preferred: seq<string>, registered: seq<string>)
    ensures var candidates, first := Candidates(preferred, registered), FirstOccurrences(NormaliseAll(preferred));
      && first <= candidates && Distinct(candidates)
      && (forall n :: n in candidates <==> n != "" && (n in NormaliseAll(preferred) || n in registered))
      && (forall n :: n in candidates[|first|..] ==> n in registered && n !in NormaliseAll(preferred))
  {
    var names, sorted := NormaliseAll(preferred), SortBy(LexLess, registered);
    FirstOccurrencesAppend(names, sorted);
    FirstOccurrencesFacts(names + sorted);
    MultisetElements(sorted, registered);
  }

  /** A preferred name is looked up without the blanks around it and in lower case. */
  lemma NormaliseSpelledOut(name: string)
    ensures |Normalise(name)| == |Strip(name)|
    ensures forall k :: 0 <= k < |Strip(name)| ==>
      Normalise(name)[k] == (if 'A' <= Strip(name)[k] <= 'Z' then Strip(name)[k] + ' ' else Strip(name)[k])
  {
  }

  function CountOf(events: seq<Event>, e: Event): nat {
    multiset(events)[e]
  }

  /** Every workspace that was created got exactly one removal, and nothing else was removed. */
  lemma {:induction false} WorkspacesRemovedOnce(registry: Registry, executed: seq<string>, n: string)
    requires Distinct(executed)
    ensures CountOf(AllEvents(registry, executed), Removed(n)) == CountOf(AllEvents(registry, executed), Created(n)) <= 1
    ensures CountOf(AllEvents(registry, executed), Created(n)) == 1 <==>
      n in executed && n in registry && registry[n].workspaceError.None?
  {
    if executed != [] {
      var rest, last := executed[..|executed| - 1], executed[|executed| - 1];
      WorkspacesRemovedOnce(registry, rest, n);
      assert executed == rest + [last];
      LastIsNew(rest, last);
      if last in registry {
        AttemptCounts(AllEvents(registry, rest), last, registry[last], n);
      } else {
        assert AllEvents(registry, executed) == AllEvents(registry, rest);
      }
    }
  }

  lemma LastIsNew(rest: seq<string>, last: string)
    requires Distinct(rest + [last])
    ensures last !in rest && Distinct(rest)
  {
    var all := rest + [last];
    assert forall i :: 0 <= i < |rest| ==> all[i] == rest[i];
    assert all[|rest|] == last;
    forall i | 0 <= i < |rest| ensures rest[i] != last {
      assert all[i] != all[|rest|];
    }
  }

  lemma AttemptCounts(events: seq<Event>, name: string, p: Provider, n: string)
    ensures var more := if n == name && p.workspaceError.None? then 1 else 0;
      && CountOf(events + AttemptEvents(name, p), Created(n)) == CountOf(events, Created(n)) + more
      && CountOf(events + AttemptEvents(name, p), Removed(n)) == CountOf(events, Removed(n)) + more
  {
  }

  /** The order in which providers were registered does not matter. */
  lemma RegistrationOrderIrrelevant(preferred: seq<string>, registered: seq<string>, other: seq<string>)
    requires multiset(registered) == multiset(other)
    ensures Candidates(preferred, registered) == Candidates(preferred, other)
  {
    LexIsKeyOrder(Elements(registered));
    LexIsKeyOrder(Elements(other));
    SortBySorted(LexLess, registered);
    SortBySorted(LexLess, other);
    SortedUnique(SortBy(LexLess, registered), SortBy(LexLess, other));
  }
}
