/** The append-only project memory: the in-memory store, with a map and an order list for
    each project, and the manager that writes to it. */
module ProjectMemory {
  import opened Outcomes
  import opened Digraph
  import opened MemoryHistory

  datatype MemoryError = Collision | UnknownReference | MissingSupersedes | Circular

  /** The order list names the map's keys once each, and the map files records by id. */
  ghost predicate Matches(records: map<string, Record>, order: seq<string>, project: string) {
    && Distinct(order)
    && (forall id :: id in order <==> id in records)
    && forall id :: id in records ==> records[id].recordId == id && records[id].body.projectId == project
  }

  /** The records in the order listed. */
  ghost function Listed(records: map<string, Record>, order: seq<string>): (h: seq<Record>)
    requires forall id :: id in order ==> id in records
    ensures |h| == |order| && forall i :: 0 <= i < |h| ==> h[i] == records[order[i]]
  {
    seq(|order|, i requires 0 <= i < |order| => records[order[i]])
  }

  lemma ListedFacts(records: map<string, Record>, order: seq<string>, project: string)
    requires Matches(records, order, project)
    ensures var h := Listed(records, order);
      && DistinctIds(h)
      && (forall id :: Named(h, id) <==> id in records)
      && (forall id :: id in records ==> records[id] in h)
      && (forall r :: r in h ==> r.recordId in records && records[r.recordId] == r && r.body.projectId == project)
  {
    var h := Listed(records, order);
    forall i, j | 0 <= i < j < |h| ensures h[i].recordId != h[j].recordId {
      assert order[i] in records && order[j] in records;
    }
    forall id | id in records ensures Named(h, id) && records[id] in h {
      assert id in order;
      var i :| 0 <= i < |order| && order[i] == id;
      assert h[i] == records[id];
    }
    forall i | 0 <= i < |h| ensures h[i].recordId in records && records[h[i].recordId] == h[i] && h[i].body.projectId == project {
      assert order[i] in records;
    }
  }

  lemma ListedAppend(records: map<string, Record>, order: seq<string>, project: string, r: Record)
    requires Matches(records, order, project) && r.recordId !in records && r.body.projectId == project
    ensures Matches(records[r.recordId := r], order + [r.recordId], project)
    ensures Listed(records[r.recordId := r], order + [r.recordId]) == Listed(records, order) + [r]
  {
    var order' := order + [r.recordId];
    assert r.recordId !in order;
    forall id ensures id in order' <==> id in records[r.recordId := r] {
    }
    forall i | 0 <= i < |order| ensures records[r.recordId := r][order'[i]] == records[order[i]] {
      assert order[i] in records;
    }
  }

  class MemoryStore {
    var byProject: map<string, map<string, Record>>
    var byProjectOrder: map<string, seq<string>>

    constructor ()
      ensures Valid() && byProject == map[] && byProjectOrder == map[]
    {
      byProject, byProjectOrder := map[], map[];
    }

    ghost predicate Valid()
      reads this
    {
      && byProject.Keys == byProjectOrder.Keys
      && forall p :: p in byProject ==> Matches(byProject[p], byProjectOrder[p], p)
    }

    /** The records of a project, oldest first. */
    ghost function History(project: string): seq<Record>
      requires Valid()
      reads this
    {
      if project in byProject then Listed(byProject[project], byProjectOrder[project]) else []
    }

    function GetRecord(project: string, id: string): Option<Record>
      reads this
    {
      if project in byProject && id in byProject[project] then Some(byProject[project][id]) else None
    }

    /** Looking a record up finds exactly what the history holds under the id. */
    lemma GetIsInHistory(project: string, id: string)
      requires Valid()
      ensures GetRecord(project, id).Some? <==> Named(History(project), id)
      ensures GetRecord(project, id).Some? ==>
        var r := GetRecord(project, id).value;
        r in History(project) && r.recordId == id && r.body.projectId == project
      ensures DistinctIds(History(project))
      ensures forall r :: r in History(project) && r.recordId == id ==> GetRecord(project, id) == Some(r)
    {
      if project in byProject {
        ListedFacts(byProject[project], byProjectOrder[project], project);
      }
    }

    /** Appends a new record, returns an equal one that is there, and rejects another with
        the same id. Nothing already listed ever changes. */
    method AppendRecord(record: Record) returns (r: Result<Record, MemoryError>)
      requires Valid()
      modifies this
      ensures Valid()
      ensures forall p :: p != record.body.projectId ==> History(p) == old(History(p))
      ensures var existing := old(GetRecord(record.body.projectId, record.recordId));
        if existing.None? then
          r == Ok(record) && History(record.body.projectId) == old(History(record.body.projectId)) + [record]
        else
          && History(record.body.projectId) == old(History(record.body.projectId))
          && r == if existing.value.body == record.body && existing.value.preserve == record.preserve
                  then Ok(existing.value) else Err(Collision)
    {
      var project, id := record.body.projectId, record.recordId;
      if project !in byProject {
        byProject := byProject[project := map[]];
        byProjectOrder := byProjectOrder[project := []];
      }
      label Ready:
      var pmap, order := byProject[project], byProjectOrder[project];
      assert Matches(pmap, order, project);
      if id in pmap {
        var existing := pmap[id];
        if existing.body == record.body && existing.preserve == record.preserve {
          return Ok(existing);
        }
        return Err(Collision);
      }
      ListedAppend(pmap, order, project, record);
      byProject := byProject[project := pmap[id := record]];
      byProjectOrder := byProjectOrder[project := order + [id]];
      return Ok(record);
    }
  }

  /** Different bodies have different ids, none empty. */
  ghost predicate GoodIds(ids: Body -> string) {
    && (forall a, b :: ids(a) == ids(b) ==> a == b)
    && forall a :: ids(a) != ""
  }

  class MemoryManager {
    const store: MemoryStore
    const ids: Body -> string

    constructor (store: MemoryStore, ids: Body -> string)
      requires store.Valid() && store.byProject == map[] && GoodIds(ids)
      ensures this.store == store && this.ids == ids && Valid()
    {
      this.store, this.ids := store, ids;
    }

    ghost predicate Valid()
      reads this, store
    {
      && store.Valid()
      && GoodIds(ids)
      && forall p :: Sound(store.History(p), ids)
    }

    method ValidateReference(project: string, id: string) returns (ok: bool)
      requires Valid()
      ensures ok <==> Named(store.History(project), id)
    {
      store.GetIsInHistory(project, id);
      ok := store.GetRecord(project, id).Some?;
    }

    method ValidateReferences(project: string, supersedes: Option<string>, related: seq<string>) returns (ok: bool)
      requires Valid()
      ensures ok <==> forall ref :: ref in (if supersedes.Some? then [supersedes.value] else []) + related ==> Named(store.History(project), ref)
    {
      if supersedes.Some? {
        ok := ValidateReference(project, supersedes.value);
        if !ok {
          assert supersedes.value in [supersedes.value] + related;
          return;
        }
      }
      for i := 0 to |related|
        invariant forall j :: 0 <= j < i ==> Named(store.History(project), related[j])
      {
        ok := ValidateReference(project, related[i]);
        if !ok {
          assert related[i] in related;
          return;
        }
      }
      ok := true;
    }

    /** Creates a record or finds the one created before from the same body. What can go
        wrong is a reference to no record of the project, or the same body with another
        preserve flag, which the id leaves out. */
    method CreateRecord(project: string, kind: string, data: string, createdBy: Option<string>, supersedes: Option<string>,
                        related: seq<string>, preserve: bool, now: int)
      returns (r: Result<Record, MemoryError>)
      requires Valid()
      modifies store
      ensures Valid()
      ensures forall p :: p != project ==> store.History(p) == old(store.History(p))
      ensures var body := Body(project, kind, data, supersedes, SortedSet(related));
        CreateOutcome(old(store.History(project)), store.History(project), Record(ids(body), body, createdBy, now, preserve), r)
    {
      var rel := SortedSet(related);
      var known := ValidateReferences(project, supersedes, rel);
      var body := Body(project, kind, data, supersedes, rel);
      if !known {
        return Err(UnknownReference);
      }
      var record := Record(ids(body), body, createdBy, now, preserve);
      r := AppendKnown(record);
    }

    /** Appends a record whose references exist, or finds one with its id. */
    method AppendKnown(record: Record) returns (r: Result<Record, MemoryError>)
      requires Valid() && record.recordId == ids(record.body)
      requires forall ref :: ref in References(record.body) ==> Named(store.History(record.body.projectId), ref)
      modifies store
      ensures Valid()
      ensures forall p :: p != record.body.projectId ==> store.History(p) == old(store.History(p))
      ensures CreateOutcome(old(store.History(record.body.projectId)), store.History(record.body.projectId), record, r)
    {
      var project := record.body.projectId;
      store.GetIsInHistory(project, record.recordId);
      OutcomeOf(store.History(project), record, ids, store.GetRecord(project, record.recordId));
      r := store.AppendRecord(record);
      forall p ensures Sound(store.History(p), ids) {
        assert p != project ==> store.History(p) == old(store.History(p));
      }
    }

    /** Whether the id is on the chain of superseded records from `supersedesId`. `walked`
        is what the loop passed: no id twice, and unless it finds the id it goes on to the
        end of the chain, so the test for an id seen before never ends it. */
    method CreatesCycle(project: string, supersedesId: string, newId: string) returns (r: bool, ghost walked: seq<string>)
      requires Valid()
      ensures r <==> newId in ChainFrom(store.History(project), supersedesId)
      ensures Distinct(walked) && walked <= ChainFrom(store.History(project), supersedesId)
      ensures !r ==> walked == ChainFrom(store.History(project), supersedesId)
    {
      ghost var h := store.History(project);
      walked := [];
      ghost var full := ChainFrom(h, supersedesId);
      ChainsDescend(h, supersedesId);
      NoEmptyId(h, ids);
      var seen: set<string> := {};
      var current := supersedesId;
      while current != "" && current !in seen
        invariant seen == Elements(walked) && newId !in walked
        invariant walked + ChainFrom(h, current) == full
        invariant current in seen ==> current == ""
        decreases |ChainFrom(h, current)|
      {
        seen := seen + {current};
        store.GetIsInHistory(project, current);
        var rec := store.GetRecord(project, current);
        if rec.None? {
          StartOfChain(walked, [], full);
          return false, walked;
        }
        ghost var rest := ChainStep(h, rec.value);
        if rec.value.recordId == newId {
          StartOfChain(walked, [current] + rest, full);
          return true, walked;
        }
        walked := ListOne(walked, current, rest, full);
        current := if rec.value.body.supersedes.Some? then rec.value.body.supersedes.value else "";
      }
      StartOfChain(walked, [], full);
      return false, walked;
    }

    /** The checks a decision passes before it is recorded. */
    method CheckDecision(project: string, decisionId: string, isSuperseded: bool, supersedes: Option<string>)
      returns (error: Option<MemoryError>)
      requires Valid()
      ensures error == DecisionError(store.History(project), decisionId, isSuperseded, supersedes)
    {
      if isSuperseded && !Given(supersedes) {
        return Some(MissingSupersedes);
      }
      if Given(supersedes) {
        var known := ValidateReference(project, supersedes.value);
        if !known {
          return Some(UnknownReference);
        }
        var circular, _ := CreatesCycle(project, supersedes.value, decisionId);
        if circular {
          return Some(Circular);
        }
      }
      return None;
    }

    /** Records a decision. Besides the errors of creating a record: a superseded decision
        must say what it supersedes, and the caller's decision id must not be the id of a
        record on the chain it supersedes. */
    method RecordDecision(project: string, decisionId: string, isSuperseded: bool, data: string, createdBy: Option<string>,
                          supersedes: Option<string>, related: seq<string>, now: int)
      returns (r: Result<Record, MemoryError>)
      requires Valid()
      modifies store
      ensures Valid()
      ensures forall p :: p != project ==> store.History(p) == old(store.History(p))
      ensures var error := DecisionError(old(store.History(project)), decisionId, isSuperseded, supersedes);
        var body := Body(project, "architecture_decision", data, supersedes, SortedSet(related));
        if error.Some? then r == Err(error.value) && store.History(project) == old(store.History(project))
        else CreateOutcome(old(store.History(project)), store.History(project), Record(ids(body), body, createdBy, now, false), r)
    {
      var error := CheckDecision(project, decisionId, isSuperseded, supersedes);
      if error.Some? {
        return Err(error.value);
      }
      r := CreateRecord(project, "architecture_decision", data, createdBy, supersedes, related, false, now);
    }
  }

  /** What stops a decision: a superseded one without the decision it supersedes, an
      unknown one, or an id on the chain it supersedes. */
  ghost function DecisionError(h: seq<Record>, decisionId: string, isSuperseded: bool, supersedes: Option<string>): Option<MemoryError>
    requires DistinctIds(h) && Grounded(h)
  {
    if !Given(supersedes) then (if isSuperseded then Some(MissingSupersedes) else None)
    else if !Named(h, supersedes.value) then Some(UnknownReference)
    else if decisionId in ChainFrom(h, supersedes.value) then Some(Circular)
    else None
  }

  /** What stops a decision, in plain terms; an empty id counts as none. */
  lemma DecisionErrorExactly(h: seq<Record>, decisionId: string, isSuperseded: bool, supersedes: Option<string>)
    requires DistinctIds(h) && Grounded(h)
    ensures var error := DecisionError(h, decisionId, isSuperseded, supersedes);
      && (error == Some(MissingSupersedes) <==> isSuperseded && (supersedes.None? || supersedes.value == ""))
      && (error == Some(UnknownReference) <==> supersedes.Some? && supersedes.value != "" && !Named(h, supersedes.value))
      && (error == Some(Circular) <==>
            supersedes.Some? && supersedes.value != "" && Named(h, supersedes.value) && decisionId in ChainFrom(h, supersedes.value))
  {
  }

  /** A nonempty id is given. */
  predicate Given(supersedes: Option<string>) {
    supersedes.Some? && supersedes.value != ""
  }

  lemma NoEmptyId(h: seq<Record>, ids: Body -> string)
    requires Sound(h, ids) && GoodIds(ids)
    ensures !Named(h, "")
  {
  }

  /** What is left of the chain after one record. */
  lemma ChainStep(h: seq<Record>, r: Record) returns (rest: seq<string>)
    requires DistinctIds(h) && Grounded(h) && r in h
    ensures ChainFrom(h, r.recordId) == [r.recordId] + rest
    ensures r.body.supersedes.None? ==> rest == []
    ensures r.body.supersedes.Some? ==>
      rest != [] && rest[0] == r.body.supersedes.value && rest == ChainFrom(h, r.body.supersedes.value)
  {
    var i :| 0 <= i < |h| && h[i] == r;
    assert Named(h, r.recordId) && PositionOf(h, r.recordId) == i;
    if r.body.supersedes.Some? {
      var s := r.body.supersedes.value;
      assert s == References(r.body)[0];
      EarlierPosition(h, i, s);
      rest := ChainFrom(h, s);
    } else {
      rest := [];
    }
  }

  /** Moves the head of the rest to the walked part; the next head is not walked yet. */
  lemma StartOfChain(walked: seq<string>, rest: seq<string>, full: seq<string>)
    requires walked + rest == full && Distinct(full)
    ensures Distinct(walked) && walked <= full && (rest == [] ==> walked == full)
  {
    assert forall i :: 0 <= i < |walked| ==> walked[i] == full[i];
  }

  lemma ListOne(walked: seq<string>, current: string, rest: seq<string>, full: seq<string>) returns (longer: seq<string>)
    requires walked + ([current] + rest) == full && Distinct(full)
    ensures longer == walked + [current] && longer + rest == full
    ensures Elements(longer) == Elements(walked) + {current}
    ensures rest != [] ==> rest[0] !in longer
  {
    longer := walked + [current];
    assert longer + rest == full;
    if rest != [] {
      assert full[|longer|] == rest[0];
      assert forall i :: 0 <= i < |longer| ==> longer[i] == full[i];
    }
  }

  /** What creating a record does to the history of its project. */
  ghost predicate CreateOutcome(before: seq<Record>, after: seq<Record>, wanted: Record, r: Result<Record, MemoryError>) {
    if exists ref :: ref in References(wanted.body) && !Named(before, ref) then
      r == Err(UnknownReference) && after == before
    else if exists e :: e in before && e.body == wanted.body then
      && after == before
      && (exists e :: e in before && e.body == wanted.body && r == Found(e, wanted))
    else
      r == Ok(wanted) && after == before + [wanted]
  }

  /** The answer when the body is recorded already. */
  function Found(existing: Record, wanted: Record): Result<Record, MemoryError> {
    if existing.preserve == wanted.preserve then Ok(existing) else Err(Collision)
  }

  /** A record with known references is found by its id or appended. */
  lemma OutcomeOf(h: seq<Record>, wanted: Record, ids: Body -> string, existing: Option<Record>)
    requires Sound(h, ids) && GoodIds(ids) && wanted.recordId == ids(wanted.body)
    requires forall ref :: ref in References(wanted.body) ==> Named(h, ref)
    requires existing.Some? <==> Named(h, wanted.recordId)
    requires existing.Some? ==> existing.value in h && existing.value.recordId == wanted.recordId
    ensures existing.Some? ==> existing.value.body == wanted.body && CreateOutcome(h, h, wanted, Found(existing.value, wanted))
    ensures existing.None? ==> CreateOutcome(h, h + [wanted], wanted, Ok(wanted)) && Sound(h + [wanted], ids)
  {
    if existing.None? {
      GroundedAppend(h, wanted);
      forall e | e in h ensures e.body != wanted.body {
        var i :| 0 <= i < |h| && h[i] == e;
      }
    }
  }

  lemma ChainsDescend(h: seq<Record>, id: string)
    requires DistinctIds(h) && Grounded(h)
    ensures Distinct(ChainFrom(h, id))
  {
    if Named(h, id) {
      ChainDescends(h, PositionOf(h, id));
    }
  }
}
