/** Concurrent execution outcomes, step by step. */
module OutcomeCoordinator {
  // Each call runs through the steps of `process`. The coordinator's lock makes a claim,
  // the usage bookkeeping and the finalisation atomic, and the collaborators are called
  // between them. Any number of calls are interleaved step by step.

  import opened Outcomes

  type ExecId = string
  type CallId = nat

  /** What a finished execution is remembered as. */
  datatype Outcome = Accepted | Failed(code: string, usageRecorded: bool)

  datatype StatusReply = StatusAccepted | StatusRefused(code: string) | StatusRaised | StatusNotMapping
  datatype LedgerReply = LedgerOk | LedgerRefused(code: string) | LedgerRaised | LedgerNotMapping
  datatype ReportReply = ReportOk | ReportRefused(code: string) | ReportRaised | ReportNotMapping

  /** The collaborators' answers for one step; a step looks only at its own. */
  datatype Answer = Answer(
    projectFound: bool, status: StatusReply, usageIdGiven: bool, ledger: LedgerReply, report: ReportReply)

  /** Where a call is. `Returned` carries what it answered; a call that was not valid or
      found its id taken never holds the id. `Crashed` is an exception leaving `process`. */
  datatype Pc =
    | Entered
    | Resolving
    | UpdatingStatus
    | CheckingUsage
    | NamingUsage
    | RecordingUsage
    | MarkingUsage
    | StoringReport
    | Finalizing(outcome: Outcome)
    | Returned(answer: Option<Outcome>)
    | Crashed

  datatype Call = Call(id: ExecId, valid: bool, pc: Pc)

  datatype What = Claim | Status(ok: bool) | Ledger(ok: bool) | Report(ok: bool)

  /** One line of the history: a claim, or a call to a collaborator and whether it succeeded. */
  datatype Entry = Entry(id: ExecId, call: CallId, what: What)

  datatype State = State(
    inflight: set<ExecId>,
    results: map<ExecId, Outcome>,
    usageRecorded: set<ExecId>,
    calls: map<CallId, Call>,
    history: seq<Entry>)

  datatype Event = Arrive(call: CallId, id: ExecId, valid: bool) | Advance(call: CallId, answer: Answer)

  const INIT := State({}, map[], {}, map[], [])

  const DUPLICATE := Failed("duplicate_execution", false)

  /** The call holds its execution id. */
  predicate Holding(pc: Pc) {
    !pc.Entered? && !pc.Returned?
  }

  function Move(s: State, c: CallId, pc: Pc): State
    requires c in s.calls
  {
    s.(calls := s.calls[c := s.calls[c].(pc := pc)])
  }

  function Noted(s: State, c: CallId, what: What): State
    requires c in s.calls
  {
    s.(history := s.history + [Entry(s.calls[c].id, c, what)])
  }

  /** The atomic duplicate check and claim. */
  function ClaimStep(s: State, c: CallId): State
    requires c in s.calls
  {
    var call := s.calls[c];
    if !call.valid then Move(s, c, Returned(None))
    else if call.id in s.results then Move(s, c, Returned(Some(s.results[call.id])))
    else if call.id in s.inflight then Move(s, c, Returned(Some(DUPLICATE)))
    else Move(Noted(s, c, Claim), c, Resolving).(inflight := s.inflight + {call.id})
  }

  function AfterStatus(reply: StatusReply): Pc {
    match reply
    case StatusAccepted => CheckingUsage
    case StatusRefused(code) => Finalizing(Failed(code, false))
    case StatusRaised => Finalizing(Failed("mission_status_update_failed", false))
    case StatusNotMapping => Crashed
  }

  function AfterLedger(reply: LedgerReply): Pc {
    match reply
    case LedgerOk => MarkingUsage
    case LedgerRefused(code) => Finalizing(Failed(code, false))
    case _ => Finalizing(Failed("usage_recording_failed", false))
  }

  function AfterReport(reply: ReportReply): Pc {
    match reply
    case ReportOk => Finalizing(Accepted)
    case ReportRefused(code) => Finalizing(Failed(code, true))
    case ReportRaised => Finalizing(Failed("report_persistence_failed", true))
    case ReportNotMapping => Crashed
  }

  function AdvanceStep(s: State, c: CallId, a: Answer): State
    requires c in s.calls
  {
    var id := s.calls[c].id;
    match s.calls[c].pc
    case Entered => ClaimStep(s, c)
    case Resolving =>
      Move(s, c, if a.projectFound then UpdatingStatus else Finalizing(Failed("cross_project_reference", false)))
    case UpdatingStatus => Move(Noted(s, c, Status(a.status.StatusAccepted?)), c, AfterStatus(a.status))
    case CheckingUsage => Move(s, c, if id in s.usageRecorded then StoringReport else NamingUsage)
    case NamingUsage =>
      Move(s, c, if a.usageIdGiven then RecordingUsage else Finalizing(Failed("usage_recording_failed", false)))
    case RecordingUsage => Move(Noted(s, c, Ledger(a.ledger.LedgerOk?)), c, AfterLedger(a.ledger))
    case MarkingUsage => Move(s, c, StoringReport).(usageRecorded := s.usageRecorded + {id})
    case StoringReport => Move(Noted(s, c, Report(a.report.ReportOk?)), c, AfterReport(a.report))
    case Finalizing(outcome) =>
      Move(s, c, Returned(Some(outcome))).(results := s.results[id := outcome], inflight := s.inflight - {id})
    case Returned(_) => s
    case Crashed => s
  }

  function Step(s: State, e: Event): State {
    match e
    case Arrive(c, id, valid) => if c in s.calls then s else s.(calls := s.calls[c := Call(id, valid, Entered)])
    case Advance(c, a) => if c in s.calls then AdvanceStep(s, c, a) else s
  }

  /** Any interleaving is a sequence of events. */
  function Run(s: State, events: seq<Event>): State {
    if events == [] then s else Step(Run(s, events[..|events| - 1]), events[|events| - 1])
  }

  /** The history of one execution id. */
  function Trail(history: seq<Entry>, id: ExecId): seq<Entry> {
    if history == [] then []
    else
      var last := history[|history| - 1];
      Trail(history[..|history| - 1], id) + if last.id == id then [last] else []
  }

  function Whats(t: seq<Entry>): (w: seq<What>)
    ensures |w| == |t|
  {
    seq(|t|, i requires 0 <= i < |t| => t[i].what)
  }

  const UPDATED := [Claim, Status(true)]
  const RECORDED := [Claim, Status(true), Ledger(true)]
  const REPORTED := [Claim, Status(true), Ledger(true), Report(true)]

  /** The history an outcome is remembered with: an accepted one with status, usage and
      report each done once, in that order; a failed one with what was done before it. */
  predicate Explains(w: seq<What>, outcome: Outcome) {
    match outcome
    case Accepted => w == REPORTED
    case Failed(_, usage) =>
      if usage then w == RECORDED + [Report(false)]
      else w == [Claim] || w == [Claim, Status(false)] || w == UPDATED || w == UPDATED + [Ledger(false)]
  }

  /** The history of an id whose holder is at `pc`. */
  predicate Fits(w: seq<What>, pc: Pc) {
    match pc
    case Resolving => w == [Claim]
    case UpdatingStatus => w == [Claim]
    case CheckingUsage => w == UPDATED
    case NamingUsage => w == UPDATED
    case RecordingUsage => w == UPDATED
    case MarkingUsage => w == RECORDED
    case StoringReport => w == RECORDED
    case Finalizing(outcome) => Explains(w, outcome)
    case Crashed => w == [Claim, Status(false)] || w == RECORDED + [Report(false)]
    case _ => false
  }

  predicate AllBy(t: seq<Entry>, c: CallId) {
    forall i :: 0 <= i < |t| ==> t[i].call == c
  }

  /** Usage is marked for the holder exactly from the marking step on. */
  predicate UsageFits(marked: bool, w: seq<What>, pc: Pc) {
    match pc
    case StoringReport => marked
    case Finalizing(_) => marked ==> RECORDED <= w
    case Crashed => marked ==> RECORDED <= w
    case _ => !marked
  }

  ghost predicate HolderInv(s: State, c: CallId)
    requires c in s.calls
  {
    var id, pc, t := s.calls[c].id, s.calls[c].pc, Trail(s.history, s.calls[c].id);
    Holding(pc) ==>
      && id in s.inflight && id !in s.results
      && AllBy(t, c) && Fits(Whats(t), pc)
      && UsageFits(id in s.usageRecorded, Whats(t), pc)
  }

  ghost predicate IdInv(s: State, id: ExecId) {
    var t := Trail(s.history, id);
    if id in s.inflight then
      && id !in s.results
      && t != [] && t[0].call in s.calls
      && s.calls[t[0].call].id == id && Holding(s.calls[t[0].call].pc)
    else if id in s.results then t != [] && AllBy(t, t[0].call) && Explains(Whats(t), s.results[id])
    else t == [] && id !in s.usageRecorded
  }

  ghost predicate Inv(s: State) {
    && (forall c :: c in s.calls ==> HolderInv(s, c))
    && (forall id :: IdInv(s, id))
  }

  lemma TrailSnoc(history: seq<Entry>, e: Entry, id: ExecId)
    ensures Trail(history + [e], id) == Trail(history, id) + if e.id == id then [e] else []
  {
    assert (history + [e])[..|history|] == history;
  }

  /** Two calls holding one id are the same call. */
  lemma OneHolder(s: State, c: CallId, d: CallId)
    requires Inv(s) && c in s.calls && d in s.calls
    requires Holding(s.calls[c].pc) && Holding(s.calls[d].pc) && s.calls[c].id == s.calls[d].id
    ensures c == d
  {
    assert HolderInv(s, c) && HolderInv(s, d);
    assert IdInv(s, s.calls[c].id);
  }

  /** What a step of `c` must establish about its own id to keep the invariant; all
      other ids are untouched. */
  lemma StepKeeps(s: State, t: State, c: CallId)
    requires Inv(s) && c in s.calls && t.calls.Keys == s.calls.Keys
    requires forall d :: d in s.calls && d != c ==> t.calls[d] == s.calls[d]
    requires t.calls[c].id == s.calls[c].id
    requires forall id :: id != s.calls[c].id ==>
      && Trail(t.history, id) == Trail(s.history, id)
      && (id in t.inflight <==> id in s.inflight) && (id in t.usageRecorded <==> id in s.usageRecorded)
      && (id in t.results <==> id in s.results) && (id in s.results ==> t.results[id] == s.results[id])
    requires HolderInv(t, c) && IdInv(t, s.calls[c].id)
    requires forall d :: d in s.calls && d != c && Holding(s.calls[d].pc) ==> s.calls[d].id != s.calls[c].id
    ensures Inv(t)
  {
    forall d | d in t.calls ensures HolderInv(t, d) {
      if d != c {
        assert HolderInv(s, d);
      }
    }
    forall id ensures IdInv(t, id) {
      if id != s.calls[c].id {
        assert IdInv(s, id);
        if id in s.inflight {
          assert Trail(s.history, id)[0].call != c;
        }
      }
    }
  }

  lemma NoteTrail(s: State, c: CallId, what: What)
    requires c in s.calls
    ensures forall id :: id != s.calls[c].id ==> Trail(Noted(s, c, what).history, id) == Trail(s.history, id)
    ensures var id := s.calls[c].id;
      && Trail(Noted(s, c, what).history, id) == Trail(s.history, id) + [Entry(id, c, what)]
      && Whats(Trail(Noted(s, c, what).history, id)) == Whats(Trail(s.history, id)) + [what]
      && (AllBy(Trail(s.history, id), c) ==> AllBy(Trail(Noted(s, c, what).history, id), c))
  {
    forall id ensures Trail(Noted(s, c, what).history, id) ==
      Trail(s.history, id) + if id == s.calls[c].id then [Entry(s.calls[c].id, c, what)] else []
    {
      TrailSnoc(s.history, Entry(s.calls[c].id, c, what), id);
    }
  }

  lemma ClaimKeeps(s: State, c: CallId)
    requires Inv(s) && c in s.calls && s.calls[c].pc.Entered?
    ensures Inv(ClaimStep(s, c))
  {
    var call, t := s.calls[c], ClaimStep(s, c);
    assert IdInv(s, call.id);
    if call.valid && call.id !in s.results && call.id !in s.inflight {
      NoteTrail(s, c, Claim);
      assert Whats([]) == [];
      forall d | d in s.calls && Holding(s.calls[d].pc) ensures s.calls[d].id != call.id {
        assert HolderInv(s, d);
      }
      StepKeeps(s, t, c);
    } else {
      OnlyMoved(s, c, t.calls[c].pc);
    }
  }

  /** A call that holds nothing may move to a place where it holds nothing. */
  lemma OnlyMoved(s: State, c: CallId, pc: Pc)
    requires Inv(s) && c in s.calls && !Holding(s.calls[c].pc) && !Holding(pc)
    ensures Inv(Move(s, c, pc))
  {
    var t := Move(s, c, pc);
    forall d | d in t.calls ensures HolderInv(t, d) {
      assert HolderInv(s, d);
    }
    forall id ensures IdInv(t, id) {
      assert IdInv(s, id);
    }
  }

  lemma NoOtherHolder(s: State, c: CallId)
    requires Inv(s) && c in s.calls && Holding(s.calls[c].pc)
    ensures forall d :: d in s.calls && d != c && Holding(s.calls[d].pc) ==> s.calls[d].id != s.calls[c].id
  {
    forall d | d in s.calls && d != c && Holding(s.calls[d].pc) ensures s.calls[d].id != s.calls[c].id {
      if s.calls[d].id == s.calls[c].id {
        OneHolder(s, c, d);
      }
    }
  }

  /** The steps that call a collaborator. */
  predicate Calls(pc: Pc) {
    pc.UpdatingStatus? || pc.RecordingUsage? || pc.StoringReport?
  }

  /** A holder that notes a call and moves on keeps the invariant if its history fits its new place. */
  lemma NotedMoveKeeps(s: State, c: CallId, what: What, pc: Pc)
    requires Inv(s) && c in s.calls && Holding(s.calls[c].pc) && Holding(pc)
    requires var w := Whats(Trail(s.history, s.calls[c].id)) + [what];
      Fits(w, pc) && UsageFits(s.calls[c].id in s.usageRecorded, w, pc)
    ensures Inv(Move(Noted(s, c, what), c, pc))
  {
    var t := Move(Noted(s, c, what), c, pc);
    assert HolderInv(s, c) && IdInv(s, s.calls[c].id);
    NoOtherHolder(s, c);
    NoteTrail(s, c, what);
    StepKeeps(s, t, c);
  }

  lemma StatusFits(w: seq<What>, marked: bool, reply: StatusReply)
    requires Fits(w, UpdatingStatus) && UsageFits(marked, w, UpdatingStatus)
    ensures var w', pc := w + [Status(reply.StatusAccepted?)], AfterStatus(reply);
      Holding(pc) && Fits(w', pc) && UsageFits(marked, w', pc)
  {
  }

  lemma LedgerFits(w: seq<What>, marked: bool, reply: LedgerReply)
    requires Fits(w, RecordingUsage) && UsageFits(marked, w, RecordingUsage)
    ensures var w', pc := w + [Ledger(reply.LedgerOk?)], AfterLedger(reply);
      Holding(pc) && Fits(w', pc) && UsageFits(marked, w', pc)
  {
  }

  lemma ReportFits(w: seq<What>, marked: bool, reply: ReportReply)
    requires Fits(w, StoringReport) && UsageFits(marked, w, StoringReport)
    ensures var w', pc := w + [Report(reply.ReportOk?)], AfterReport(reply);
      Holding(pc) && Fits(w', pc) && UsageFits(marked, w', pc)
  {
  }

  lemma CallingStepKeeps(s: State, c: CallId, a: Answer)
    requires Inv(s) && c in s.calls && Calls(s.calls[c].pc)
    ensures Inv(AdvanceStep(s, c, a))
  {
    assert HolderInv(s, c);
    var w, marked := Whats(Trail(s.history, s.calls[c].id)), s.calls[c].id in s.usageRecorded;
    match s.calls[c].pc {
      case UpdatingStatus =>
        StatusFits(w, marked, a.status);
        NotedMoveKeeps(s, c, Status(a.status.StatusAccepted?), AfterStatus(a.status));
      case RecordingUsage =>
        LedgerFits(w, marked, a.ledger);
        NotedMoveKeeps(s, c, Ledger(a.ledger.LedgerOk?), AfterLedger(a.ledger));
      case StoringReport =>
        ReportFits(w, marked, a.report);
        NotedMoveKeeps(s, c, Report(a.report.ReportOk?), AfterReport(a.report));
    }
  }

  /** A holder that only moves on keeps the invariant if its history fits its new place. */
  lemma MoveKeeps(s: State, c: CallId, pc: Pc)
    requires Inv(s) && c in s.calls && Holding(s.calls[c].pc) && Holding(pc)
    requires var w := Whats(Trail(s.history, s.calls[c].id));
      Fits(w, pc) && UsageFits(s.calls[c].id in s.usageRecorded, w, pc)
    ensures Inv(Move(s, c, pc))
  {
    assert HolderInv(s, c) && IdInv(s, s.calls[c].id);
    NoOtherHolder(s, c);
    StepKeeps(s, Move(s, c, pc), c);
  }

  lemma MarkKeeps(s: State, c: CallId)
    requires Inv(s) && c in s.calls && s.calls[c].pc.MarkingUsage?
    ensures Inv(Move(s, c, StoringReport).(usageRecorded := s.usageRecorded + {s.calls[c].id}))
  {
    assert HolderInv(s, c) && IdInv(s, s.calls[c].id);
    NoOtherHolder(s, c);
    StepKeeps(s, Move(s, c, StoringReport).(usageRecorded := s.usageRecorded + {s.calls[c].id}), c);
  }

  lemma FinishKeeps(s: State, c: CallId, outcome: Outcome)
    requires Inv(s) && c in s.calls && s.calls[c].pc == Finalizing(outcome)
    ensures var id := s.calls[c].id;
      Inv(Move(s, c, Returned(Some(outcome))).(results := s.results[id := outcome], inflight := s.inflight - {id}))
  {
    var id := s.calls[c].id;
    assert HolderInv(s, c) && IdInv(s, id);
    NoOtherHolder(s, c);
    StepKeeps(s, Move(s, c, Returned(Some(outcome))).(results := s.results[id := outcome], inflight := s.inflight - {id}), c);
  }

  lemma LocalStepKeeps(s: State, c: CallId, a: Answer)
    requires Inv(s) && c in s.calls && Holding(s.calls[c].pc) && !Calls(s.calls[c].pc)
    ensures Inv(AdvanceStep(s, c, a))
  {
    assert HolderInv(s, c);
    var pc := s.calls[c].pc;
    if pc.MarkingUsage? {
      MarkKeeps(s, c);
    } else if pc.Finalizing? {
      FinishKeeps(s, c, pc.outcome);
    } else if !pc.Crashed? {
      MoveKeeps(s, c, AdvanceStep(s, c, a).calls[c].pc);
    }
  }

  lemma StepPreserves(s: State, e: Event)
    requires Inv(s)
    ensures Inv(Step(s, e))
  {
    var t := Step(s, e);
    match e {
      case Arrive(c, id, valid) =>
        if c !in s.calls {
          forall d | d in t.calls ensures HolderInv(t, d) {
            assert d != c ==> HolderInv(s, d);
          }
          forall i ensures IdInv(t, i) {
            assert IdInv(s, i);
          }
        }
      case Advance(c, a) =>
        if c in s.calls {
          if s.calls[c].pc.Entered? {
            ClaimKeeps(s, c);
          } else if Calls(s.calls[c].pc) {
            CallingStepKeeps(s, c, a);
          } else if Holding(s.calls[c].pc) {
            LocalStepKeeps(s, c, a);
          }
        }
    }
  }

  /** The invariant holds after every interleaving. */
  lemma {:induction false} Reachable(events: seq<Event>)
    ensures Inv(Run(INIT, events))
  {
    if events != [] {
      Reachable(events[..|events| - 1]);
      StepPreserves(Run(INIT, events[..|events| - 1]), events[|events| - 1]);
    }
  }

  // ----- safety -----

  lemma {:induction false} TrailMembers(history: seq<Entry>, id: ExecId)
    ensures forall e :: e in Trail(history, id) <==> e in history && e.id == id
  {
    if history != [] {
      var rest, last := history[..|history| - 1], history[|history| - 1];
      TrailMembers(rest, id);
      assert history == rest + [last];
    }
  }

  /** In every interleaving, whatever was ever done for an execution id (claiming it,
      updating the status, recording usage, storing the report) was done by one call, and
      no execution is both in flight and finished. */
  lemma OneCallPerExecution(events: seq<Event>, d: Entry, e: Entry)
    requires var s := Run(INIT, events); d in s.history && e in s.history && d.id == e.id
    ensures d.call == e.call
    ensures Run(INIT, events).inflight !! Run(INIT, events).results.Keys
  {
    var s := Run(INIT, events);
    Reachable(events);
    forall id | id in s.inflight ensures id !in s.results {
      assert IdInv(s, id);
    }
    var t := Trail(s.history, d.id);
    TrailMembers(s.history, d.id);
    assert IdInv(s, d.id);
    if d.id in s.inflight {
      assert HolderInv(s, t[0].call);
    }
  }

  /** The history of any id is a prefix of claim, status, usage, report, of which all but
      the last entry succeeded. */
  predicate Orderly(w: seq<What>) {
    || w == [] || w == [Claim] || w == [Claim, Status(false)] || w == UPDATED
    || w == UPDATED + [Ledger(false)] || w == RECORDED || w == RECORDED + [Report(false)] || w == REPORTED
  }

  /** In every interleaving each collaborator is called at most once per execution, in
      order, each only after the one before it succeeded. */
  lemma CollaboratorsCalledOnce(events: seq<Event>, id: ExecId)
    ensures Orderly(Whats(Trail(Run(INIT, events).history, id)))
  {
    var s := Run(INIT, events);
    Reachable(events);
    assert IdInv(s, id);
    var t := Trail(s.history, id);
    if id in s.inflight {
      assert HolderInv(s, t[0].call);
    }
    assert Whats([]) == [];
  }

  /** A stored result tells what happened: accepted means status update, usage record and
      report each succeeded once, in that order; a failure tells whether usage was recorded. */
  lemma ResultExplained(events: seq<Event>, id: ExecId)
    requires id in Run(INIT, events).results
    ensures Explains(Whats(Trail(Run(INIT, events).history, id)), Run(INIT, events).results[id])
  {
    Reachable(events);
    assert IdInv(Run(INIT, events), id);
  }

  lemma StepKeepsResults(s: State, e: Event, id: ExecId)
    requires Inv(s) && id in s.results
    ensures id in Step(s, e).results && Step(s, e).results[id] == s.results[id]
  {
    assert IdInv(s, id);
    if e.Advance? && e.call in s.calls {
      assert HolderInv(s, e.call);
    }
  }

  /** A stored result never changes. */
  lemma {:induction false} ResultsStable(before: seq<Event>, after: seq<Event>, id: ExecId)
    requires id in Run(INIT, before).results
    ensures id in Run(INIT, before + after).results
    ensures Run(INIT, before + after).results[id] == Run(INIT, before).results[id]
  {
    if after == [] {
      assert before + after == before;
    } else {
      var rest := after[..|after| - 1];
      ResultsStable(before, rest, id);
      assert before + after == (before + rest) + [after[|after| - 1]];
      RunSnoc(before + rest, after[|after| - 1]);
      Reachable(before + rest);
      StepKeepsResults(Run(INIT, before + rest), after[|after| - 1], id);
    }
  }

  // ----- progress -----

  /** Steps a call still has to take. */
  function Remaining(pc: Pc): nat {
    match pc
    case Entered => 9
    case Resolving => 8
    case UpdatingStatus => 7
    case CheckingUsage => 6
    case NamingUsage => 5
    case RecordingUsage => 4
    case MarkingUsage => 3
    case StoringReport => 2
    case Finalizing(_) => 1
    case _ => 0
  }

  /** No call waits for another: each step of an unfinished call brings it closer to its end. */
  lemma OwnStepProgresses(s: State, c: CallId, a: Answer)
    requires c in s.calls && Remaining(s.calls[c].pc) > 0
    ensures c in AdvanceStep(s, c, a).calls && AdvanceStep(s, c, a).calls[c].id == s.calls[c].id
    ensures Remaining(AdvanceStep(s, c, a).calls[c].pc) < Remaining(s.calls[c].pc)
  {
  }

  /** The steps of other calls leave a call where it is. */
  lemma OtherStepsLeave(s: State, e: Event, c: CallId)
    requires c in s.calls && !(e.Advance? && e.call == c)
    ensures c in Step(s, e).calls && Step(s, e).calls[c] == s.calls[c]
  {
  }

  /** An answer is a refusal as duplicate or the result stored for its execution. */
  ghost predicate AnswersAgree(s: State) {
    forall c :: c in s.calls ==> AnswerAgrees(s, s.calls[c])
  }

  predicate AnswerAgrees(s: State, call: Call) {
    call.pc.Returned? && call.pc.answer.Some? ==>
      call.pc.answer.value == DUPLICATE || (call.id in s.results && s.results[call.id] == call.pc.answer.value)
  }

  lemma AnswerAgreesNext(s: State, e: Event, c: CallId)
    requires Inv(s) && AnswersAgree(s) && c in Step(s, e).calls
    ensures AnswerAgrees(Step(s, e), Step(s, e).calls[c])
  {
    if c in s.calls {
      assert AnswerAgrees(s, s.calls[c]);
      if e.Advance? && e.call == c {
        OwnAnswerAgrees(s, c, e.answer);
      } else {
        OtherStepsLeave(s, e, c);
        if s.calls[c].id in s.results {
          StepKeepsResults(s, e, s.calls[c].id);
        }
      }
    }
  }

  lemma OwnAnswerAgrees(s: State, c: CallId, a: Answer)
    requires c in s.calls && AnswerAgrees(s, s.calls[c])
    ensures AnswerAgrees(AdvanceStep(s, c, a), AdvanceStep(s, c, a).calls[c])
  {
  }

  /** In every interleaving, every answered call got either a refusal as duplicate or the
      one result stored for its execution. */
  lemma {:induction false} AnswersMatchStored(events: seq<Event>)
    ensures AnswersAgree(Run(INIT, events))
  {
    if events != [] {
      var rest, e := events[..|events| - 1], events[|events| - 1];
      AnswersMatchStored(rest);
      Reachable(rest);
      forall c | c in Step(Run(INIT, rest), e).calls
        ensures AnswerAgrees(Step(Run(INIT, rest), e), Step(Run(INIT, rest), e).calls[c])
      {
        AnswerAgreesNext(Run(INIT, rest), e, c);
      }
    }
  }

  // ----- what a call is answered -----

  /** The claim step of a valid call: an id that is finished gets its stored result, one in
      flight a refusal, and only a free one is claimed. */
  lemma ClaimAnswers(events: seq<Event>, c: CallId, a: Answer)
    requires var s := Run(INIT, events); c in s.calls && s.calls[c].valid && s.calls[c].pc.Entered?
    ensures var s, t := Run(INIT, events), Run(INIT, events + [Advance(c, a)]);
      var id := s.calls[c].id;
      && c in t.calls
      && (id in s.results <==> t.calls[c].pc.Returned? && id !in s.inflight)
      && (id in s.results ==> t.calls[c].pc == Returned(Some(s.results[id])))
      && (id in s.inflight <==> t.calls[c].pc == Returned(Some(Failed("duplicate_execution", false))) && id !in s.results)
      && (id !in s.results && id !in s.inflight <==> t.calls[c].pc.Resolving?)
      && (t.calls[c].pc.Resolving? <==> t.inflight == s.inflight + {id} && id !in s.inflight)
  {
    Reachable(events);
    RunSnoc(events, Advance(c, a));
    assert IdInv(Run(INIT, events), Run(INIT, events).calls[c].id);
  }

  /** A call that has returned keeps its answer, however the run goes on. */
  lemma {:induction false} AnswersStay(before: seq<Event>, after: seq<Event>, c: CallId)
    requires c in Run(INIT, before).calls && Run(INIT, before).calls[c].pc.Returned?
    ensures c in Run(INIT, before + after).calls && Run(INIT, before + after).calls[c] == Run(INIT, before).calls[c]
  {
    if after == [] {
      assert before + after == before;
    } else {
      var rest, e := after[..|after| - 1], after[|after| - 1];
      AnswersStay(before, rest, c);
      assert before + after == (before + rest) + [e];
      RunSnoc(before + rest, e);
      if !(e.Advance? && e.call == c) {
        OtherStepsLeave(Run(INIT, before + rest), e, c);
      }
    }
  }

  /** A call for a finished execution is answered with the stored result, for ever. */
  lemma FinishedAnswered(events: seq<Event>, c: CallId, a: Answer, after: seq<Event>)
    requires var s := Run(INIT, events);
      c in s.calls && s.calls[c].valid && s.calls[c].pc.Entered? && s.calls[c].id in s.results
    ensures var s, t := Run(INIT, events), Run(INIT, events + [Advance(c, a)] + after);
      c in t.calls && t.calls[c].pc == Returned(Some(s.results[s.calls[c].id]))
  {
    ClaimAnswers(events, c, a);
    AnswersStay(events + [Advance(c, a)], after, c);
  }

  /** The call has done nothing for any execution. */
  predicate DidNothing(s: State, c: CallId) {
    forall e :: e in s.history ==> e.call != c
  }

  lemma StepLeavesNoTrace(s: State, e: Event, c: CallId)
    requires DidNothing(s, c) && (c in s.calls ==> s.calls[c].pc in {Entered, Returned(None)} && !s.calls[c].valid)
    requires e.Arrive? && e.call == c ==> c in s.calls || !e.valid
    ensures DidNothing(Step(s, e), c)
    ensures c in Step(s, e).calls ==> Step(s, e).calls[c].pc in {Entered, Returned(None)} && !Step(s, e).calls[c].valid
  {
    if c in s.calls && !(e.Advance? && e.call == c) {
      OtherStepsLeave(s, e, c);
    }
  }

  /** Every arrival of the call is invalid. */
  predicate NeverValid(events: seq<Event>, c: CallId) {
    forall k :: 0 <= k < |events| && events[k].Arrive? && events[k].call == c ==> !events[k].valid
  }

  /** An invalid call reaches no collaborator, claims nothing and is answered with a
      validation rejection, in every interleaving. */
  lemma {:induction false} InvalidCallRejected(events: seq<Event>, c: CallId)
    requires NeverValid(events, c)
    ensures DidNothing(Run(INIT, events), c)
    ensures c in Run(INIT, events).calls ==>
      Run(INIT, events).calls[c].pc in {Entered, Returned(None)} && !Run(INIT, events).calls[c].valid
  {
    if events != [] {
      var rest, e := events[..|events| - 1], events[|events| - 1];
      InvalidCallRejected(rest, c);
      StepLeavesNoTrace(Run(INIT, rest), e, c);
    }
  }

  const NO_PROJECT := Failed("cross_project_reference", false)

  /** The call is on its way to be answered that there is no such project, or was, and
      nothing was done for its id but claiming it. */
  predicate ProjectMissing(s: State, c: CallId) {
    && c in s.calls
    && Whats(Trail(s.history, s.calls[c].id)) == [Claim]
    && (s.calls[c].pc == Finalizing(NO_PROJECT)
        || (s.calls[c].pc == Returned(Some(NO_PROJECT)) && s.calls[c].id in s.results))
  }

  lemma ProjectStaysMissing(s: State, e: Event, c: CallId)
    requires Inv(s) && ProjectMissing(s, c)
    ensures ProjectMissing(Step(s, e), c)
  {
    var id := s.calls[c].id;
    assert HolderInv(s, c) && IdInv(s, id);
    if !(e.Advance? && e.call == c) {
      OtherStepsLeave(s, e, c);
      if id in s.results {
        StepKeepsResults(s, e, id);
      }
      if e.Advance? && e.call in s.calls {
        assert HolderInv(s, e.call);
        if s.calls[e.call].id != id {
          OtherTrail(s, e.call, e.answer, id);
        } else if s.calls[c].pc.Finalizing? && Holding(s.calls[e.call].pc) {
          OneHolder(s, c, e.call);
        }
      }
    }
  }

  /** A call whose project is not found reaches no collaborator: however the run goes on,
      nothing is done for its id, and when it has returned its answer says so. */
  lemma {:induction false} ProjectNotFound(before: seq<Event>, c: CallId, a: Answer, after: seq<Event>)
    requires c in Run(INIT, before).calls && Run(INIT, before).calls[c].pc.Resolving? && !a.projectFound
    ensures var s := Run(INIT, before + [Advance(c, a)] + after);
      && c in s.calls && Whats(Trail(s.history, s.calls[c].id)) == [Claim]
      && (s.calls[c].pc == Finalizing(Failed("cross_project_reference", false))
          || s.calls[c].pc == Returned(Some(Failed("cross_project_reference", false))))
  {
    ProjectMissingRun(before, c, a, after);
  }

  lemma {:induction false} ProjectMissingRun(before: seq<Event>, c: CallId, a: Answer, after: seq<Event>)
    requires c in Run(INIT, before).calls && Run(INIT, before).calls[c].pc.Resolving? && !a.projectFound
    ensures ProjectMissing(Run(INIT, before + [Advance(c, a)] + after), c)
  {
    var start := before + [Advance(c, a)];
    if after == [] {
      assert start + after == start;
      Reachable(before);
      assert HolderInv(Run(INIT, before), c);
      RunSnoc(before, Advance(c, a));
    } else {
      var rest, e := after[..|after| - 1], after[|after| - 1];
      ProjectMissingRun(before, c, a, rest);
      assert start + after == (start + rest) + [e];
      RunSnoc(start + rest, e);
      Reachable(start + rest);
      ProjectStaysMissing(Run(INIT, start + rest), e, c);
    }
  }

  /** What each collaborator's reply leads to: the next stage, or a failure with its code
      and whether usage was recorded. */
  lemma ReplyOutcomes(s: State, c: CallId, a: Answer)
    requires c in s.calls
    ensures var pc, next := s.calls[c].pc, AdvanceStep(s, c, a).calls[c].pc;
      && (pc.Resolving? && a.projectFound ==> next == UpdatingStatus)
      && (pc.UpdatingStatus? && a.status.StatusAccepted? ==> next == CheckingUsage)
      && (pc.UpdatingStatus? && a.status.StatusRefused? ==> next == Finalizing(Failed(a.status.code, false)))
      && (pc.UpdatingStatus? && a.status.StatusRaised? ==> next == Finalizing(Failed("mission_status_update_failed", false)))
      && (pc.CheckingUsage? ==> next == if s.calls[c].id in s.usageRecorded then StoringReport else NamingUsage)
      && (pc.NamingUsage? ==> next == if a.usageIdGiven then RecordingUsage else Finalizing(Failed("usage_recording_failed", false)))
      && (pc.RecordingUsage? && a.ledger.LedgerOk? ==> next == MarkingUsage)
      && (pc.RecordingUsage? && a.ledger.LedgerRefused? ==> next == Finalizing(Failed(a.ledger.code, false)))
      && (pc.RecordingUsage? && (a.ledger.LedgerRaised? || a.ledger.LedgerNotMapping?) ==>
            next == Finalizing(Failed("usage_recording_failed", false)))
      && (pc.StoringReport? && a.report.ReportOk? ==> next == Finalizing(Accepted))
      && (pc.StoringReport? && a.report.ReportRefused? ==> next == Finalizing(Failed(a.report.code, true)))
      && (pc.StoringReport? && a.report.ReportRaised? ==> next == Finalizing(Failed("report_persistence_failed", true)))
      && (pc.Finalizing? ==> next == Returned(Some(pc.outcome)))
  {
  }

  // ----- runs that end -----

  lemma RunSnoc(events: seq<Event>, e: Event)
    ensures Run(INIT, events + [e]) == Step(Run(INIT, events), e)
  {
    assert (events + [e])[..|events|] == events;
  }

  /** How many of the events are steps of this call. */
  function OwnSteps(events: seq<Event>, c: CallId): nat {
    if events == [] then 0
    else
      var last := events[|events| - 1];
      OwnSteps(events[..|events| - 1], c) + if last.Advance? && last.call == c then 1 else 0
  }

  lemma StepLowers(s: State, e: Event, c: CallId)
    requires c in s.calls
    ensures c in Step(s, e).calls && Step(s, e).calls[c].id == s.calls[c].id
    ensures Remaining(Step(s, e).calls[c].pc) <= Remaining(s.calls[c].pc)
    ensures e.Advance? && e.call == c && Remaining(s.calls[c].pc) > 0 ==>
      Remaining(Step(s, e).calls[c].pc) < Remaining(s.calls[c].pc)
  {
    if e.Advance? && e.call == c {
      if Remaining(s.calls[c].pc) > 0 {
        OwnStepProgresses(s, c, e.answer);
      }
    } else {
      OtherStepsLeave(s, e, c);
    }
  }

  /** Nine steps of its own end a call, whatever is interleaved with them. */
  lemma {:induction false} NineStepsEnd(before: seq<Event>, after: seq<Event>, c: CallId)
    requires c in Run(INIT, before).calls
    ensures c in Run(INIT, before + after).calls
    ensures Run(INIT, before + after).calls[c].id == Run(INIT, before).calls[c].id
    ensures Remaining(Run(INIT, before + after).calls[c].pc) + OwnSteps(after, c) <= 9
         || Remaining(Run(INIT, before + after).calls[c].pc) == 0
    ensures OwnSteps(after, c) >= 9 ==> Remaining(Run(INIT, before + after).calls[c].pc) == 0
  {
    if after == [] {
      assert before + after == before;
    } else {
      var rest, e := after[..|after| - 1], after[|after| - 1];
      NineStepsEnd(before, rest, c);
      assert before + after == (before + rest) + [e];
      RunSnoc(before + rest, e);
      StepLowers(Run(INIT, before + rest), e, c);
    }
  }

  // ----- when a claim is finalised -----

  /** A crash is possible only at the two places where the answer is not a mapping. */
  lemma CrashNeedsBadAnswer(s: State, c: CallId, a: Answer)
    requires c in s.calls && !s.calls[c].pc.Crashed?
    ensures AdvanceStep(s, c, a).calls[c].pc.Crashed? <==> BadAnswer(s.calls[c].pc, a)
  {
  }

  predicate BadAnswer(pc: Pc, a: Answer) {
    (pc.UpdatingStatus? && a.status.StatusNotMapping?) || (pc.StoringReport? && a.report.ReportNotMapping?)
  }

  /** Event `k` answers the call's status update or report with something that is no mapping. */
  predicate BadAnswerAt(events: seq<Event>, k: nat, c: CallId) {
    && k < |events| && events[k].Advance? && events[k].call == c
    && c in Run(INIT, events[..k]).calls && BadAnswer(Run(INIT, events[..k]).calls[c].pc, events[k].answer)
  }

  ghost predicate BadlyAnswered(events: seq<Event>, c: CallId) {
    exists k :: BadAnswerAt(events, k, c)
  }

  lemma BadlyAnsweredSnoc(events: seq<Event>, e: Event, c: CallId)
    ensures BadlyAnswered(events + [e], c) <==> BadlyAnswered(events, c) || BadAnswerAt(events + [e], |events|, c)
  {
    var longer := events + [e];
    forall k: nat | k < |events| ensures BadAnswerAt(longer, k, c) <==> BadAnswerAt(events, k, c) {
      assert longer[..k] == events[..k];
    }
  }

  /** In every interleaving, the calls that raised are exactly those whose status update or
      report got an answer that is no mapping. */
  lemma {:induction false} CrashExactly(events: seq<Event>, c: CallId)
    ensures c in Run(INIT, events).calls && Run(INIT, events).calls[c].pc.Crashed? <==> BadlyAnswered(events, c)
  {
    if events != [] {
      var rest, e := events[..|events| - 1], events[|events| - 1];
      assert events == rest + [e];
      CrashExactly(rest, c);
      BadlyAnsweredSnoc(rest, e, c);
      assert events[..|rest|] == rest;
      CrashStep(Run(INIT, rest), e, c);
    }
  }

  lemma CrashStep(s: State, e: Event, c: CallId)
    ensures c in Step(s, e).calls && Step(s, e).calls[c].pc.Crashed? <==>
      || (c in s.calls && s.calls[c].pc.Crashed?)
      || (e.Advance? && e.call == c && c in s.calls && BadAnswer(s.calls[c].pc, e.answer))
  {
    if c in s.calls {
      if e.Advance? && e.call == c {
        if !s.calls[c].pc.Crashed? {
          CrashNeedsBadAnswer(s, c, e.answer);
        }
      } else {
        OtherStepsLeave(s, e, c);
      }
    }
  }

  predicate Mappings(events: seq<Event>) {
    forall k :: 0 <= k < |events| && events[k].Advance? ==>
      !events[k].answer.status.StatusNotMapping? && !events[k].answer.report.ReportNotMapping?
  }

  /** So collaborators that answer with mappings never make a call raise. */
  lemma {:induction false} MappingsNeverCrash(events: seq<Event>, c: CallId)
    requires Mappings(events)
    ensures c in Run(INIT, events).calls ==> !Run(INIT, events).calls[c].pc.Crashed?
  {
    CrashExactly(events, c);
  }

  /** Every call has ended. */
  ghost predicate Quiet(s: State) {
    forall c :: c in s.calls ==> Remaining(s.calls[c].pc) == 0
  }

  /** The call was answered badly and is for this id. */
  ghost predicate LeftBy(events: seq<Event>, c: CallId, id: ExecId) {
    BadlyAnswered(events, c) && c in Run(INIT, events).calls && Run(INIT, events).calls[c].id == id
  }

  lemma InflightByCrash(s: State, id: ExecId)
    requires Inv(s) && Quiet(s)
    ensures id in s.inflight <==> exists c :: c in s.calls && s.calls[c].id == id && s.calls[c].pc.Crashed?
  {
    assert IdInv(s, id);
    if id in s.inflight {
      var c := Trail(s.history, id)[0].call;
      assert c in s.calls && s.calls[c].id == id && s.calls[c].pc.Crashed?;
    }
    if exists c :: c in s.calls && s.calls[c].id == id && s.calls[c].pc.Crashed? {
      var c :| c in s.calls && s.calls[c].id == id && s.calls[c].pc.Crashed?;
      assert HolderInv(s, c);
    }
  }

  /** Once every call has ended, the ids still in flight are exactly those whose call was
      answered badly. */
  lemma QuietInflight(events: seq<Event>, id: ExecId)
    requires Quiet(Run(INIT, events))
    ensures id in Run(INIT, events).inflight <==> exists c :: LeftBy(events, c, id)
  {
    var s := Run(INIT, events);
    Reachable(events);
    InflightByCrash(s, id);
    forall c ensures LeftBy(events, c, id) <==> c in s.calls && s.calls[c].id == id && s.calls[c].pc.Crashed? {
      CrashExactly(events, c);
    }
  }

  /** Every call that arrived has taken nine steps since. */
  ghost predicate AllServed(events: seq<Event>) {
    forall c :: c in Run(INIT, events).calls ==> ServedSince(events, c)
  }

  ghost predicate ServedSince(events: seq<Event>, c: CallId) {
    exists k :: ServedFrom(events, k, c)
  }

  predicate ServedFrom(events: seq<Event>, k: nat, c: CallId) {
    k <= |events| && c in Run(INIT, events[..k]).calls && OwnSteps(events[k..], c) >= 9
  }

  lemma ServedEnds(events: seq<Event>, k: nat, c: CallId)
    requires ServedFrom(events, k, c)
    ensures c in Run(INIT, events).calls && Remaining(Run(INIT, events).calls[c].pc) == 0
  {
    assert events[..k] + events[k..] == events;
    NineStepsEnd(events[..k], events[k..], c);
  }

  lemma ServedIsQuiet(events: seq<Event>)
    requires AllServed(events)
    ensures Quiet(Run(INIT, events))
  {
    forall c | c in Run(INIT, events).calls ensures Remaining(Run(INIT, events).calls[c].pc) == 0 {
      assert ServedSince(events, c);
      var k: nat :| ServedFrom(events, k, c);
      ServedEnds(events, k, c);
    }
  }

  /** After a run in which every call got its steps, every claim has been finalised if and
      only if no status update or report was answered with something that is no mapping. */
  lemma ClaimsFinalisedExactly(events: seq<Event>)
    requires AllServed(events)
    ensures Run(INIT, events).inflight == {} <==> forall c :: !BadlyAnswered(events, c)
  {
    ServedIsQuiet(events);
    var s := Run(INIT, events);
    forall c | BadlyAnswered(events, c) ensures s.inflight != {} {
      CrashExactly(events, c);
      assert LeftBy(events, c, s.calls[c].id);
      QuietInflight(events, s.calls[c].id);
    }
    if s.inflight != {} {
      var id :| id in s.inflight;
      QuietInflight(events, id);
      var c :| LeftBy(events, c, id);
      assert BadlyAnswered(events, c);
    }
  }

  lemma CrashedStep(s: State, e: Event, c: CallId)
    requires Inv(s) && c in s.calls && s.calls[c].pc.Crashed?
    ensures var t := Step(s, e);
      && c in t.calls && t.calls[c] == s.calls[c]
      && s.calls[c].id in t.inflight && s.calls[c].id !in t.results
      && Trail(t.history, s.calls[c].id) == Trail(s.history, s.calls[c].id)
  {
    StepPreserves(s, e);
    assert HolderInv(s, c) && HolderInv(Step(s, e), c);
    var id := s.calls[c].id;
    if e.Advance? && e.call in s.calls && e.call != c {
      if Holding(s.calls[e.call].pc) && s.calls[e.call].id == id {
        OneHolder(s, c, e.call);
      }
      if s.calls[e.call].id != id {
        OtherTrail(s, e.call, e.answer, id);
      }
    }
  }

  /** After a crash the id stays claimed for ever: however the run goes on, it is in flight
      and without a result, and nothing more is done for it. */
  lemma {:induction false} CrashedIdStaysClaimed(before: seq<Event>, after: seq<Event>, c: CallId)
    requires c in Run(INIT, before).calls && Run(INIT, before).calls[c].pc.Crashed?
    ensures var s, t := Run(INIT, before), Run(INIT, before + after);
      && c in t.calls && t.calls[c] == s.calls[c]
      && s.calls[c].id in t.inflight && s.calls[c].id !in t.results
      && Trail(t.history, s.calls[c].id) == Trail(s.history, s.calls[c].id)
  {
    if after == [] {
      assert before + after == before;
      Reachable(before);
      assert HolderInv(Run(INIT, before), c);
    } else {
      var rest, e := after[..|after| - 1], after[|after| - 1];
      CrashedIdStaysClaimed(before, rest, c);
      assert before + after == (before + rest) + [e];
      RunSnoc(before + rest, e);
      Reachable(before + rest);
      CrashedStep(Run(INIT, before + rest), e, c);
    }
  }

  /** A run that leaves an id in flight: the status writer answers with no mapping, and the
      next call for the same execution is refused as a duplicate. */
  lemma LostClaim(a: Answer, id: ExecId)
    requires a.projectFound && a.status.StatusNotMapping?
    ensures var s := Run(INIT, [Arrive(0, id, true), Advance(0, a), Advance(0, a), Advance(0, a), Arrive(1, id, true), Advance(1, a)]);
      && s.calls == map[0 := Call(id, true, Crashed), 1 := Call(id, true, Returned(Some(DUPLICATE)))]
      && s.inflight == {id} && s.results == map[]
  {
    var e0, e1, e4, e5 := Arrive(0, id, true), Advance(0, a), Arrive(1, id, true), Advance(1, a);
    CrashedRun(a, id);
    var s3, s4 := Run(INIT, [e0, e1, e1, e1]), Run(INIT, [e0, e1, e1, e1, e4]);
    assert s4 == s3.(calls := s3.calls[1 := Call(id, true, Entered)]) by {
      LastOf([e0, e1, e1, e1], e4, [e0, e1, e1, e1, e4]);
    }
    LastOf([e0, e1, e1, e1, e4], e5, [e0, e1, e1, e1, e4, e5]);
  }

  lemma CrashedRun(a: Answer, id: ExecId)
    requires a.projectFound && a.status.StatusNotMapping?
    ensures var s := Run(INIT, [Arrive(0, id, true), Advance(0, a), Advance(0, a), Advance(0, a)]);
      s.calls == map[0 := Call(id, true, Crashed)] && s.inflight == {id} && s.results == map[]
  {
    var e0, e1 := Arrive(0, id, true), Advance(0, a);
    var s0, s1, s2 := Run(INIT, [e0]), Run(INIT, [e0, e1]), Run(INIT, [e0, e1, e1]);
    assert s0.calls == map[0 := Call(id, true, Entered)] && s0.inflight == {} && s0.results == map[] by {
      LastOf([], e0, [e0]);
    }
    assert s1.calls == map[0 := Call(id, true, Resolving)] && s1.inflight == {id} && s1.results == map[] by {
      LastOf([e0], e1, [e0, e1]);
    }
    assert s2.calls == map[0 := Call(id, true, UpdatingStatus)] && s2.inflight == {id} && s2.results == map[] by {
      LastOf([e0, e1], e1, [e0, e1, e1]);
    }
    LastOf([e0, e1, e1], e1, [e0, e1, e1, e1]);
  }

  lemma LastOf(events: seq<Event>, e: Event, longer: seq<Event>)
    requires longer == events + [e]
    ensures Run(INIT, longer) == Step(Run(INIT, events), e)
  {
    RunSnoc(events, e);
  }

  lemma OtherTrail(s: State, c: CallId, a: Answer, id: ExecId)
    requires c in s.calls && s.calls[c].id != id
    ensures Trail(AdvanceStep(s, c, a).history, id) == Trail(s.history, id)
  {
    TrailSnoc(s.history, Entry(s.calls[c].id, c, Claim), id);
    TrailSnoc(s.history, Entry(s.calls[c].id, c, Status(a.status.StatusAccepted?)), id);
    TrailSnoc(s.history, Entry(s.calls[c].id, c, Ledger(a.ledger.LedgerOk?)), id);
    TrailSnoc(s.history, Entry(s.calls[c].id, c, Report(a.report.ReportOk?)), id);
  }
}
