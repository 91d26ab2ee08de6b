/** Turning a site's observations into findings that are counted and escalated. */
module FindingAssessment {
  import opened Outcomes
  import opened Digraph
  import opened Ordering

  /** `key` identifies the observation by project, source, type, finding type, url and
      component; `findingId` the finding by project, finding type, url and component. */
  datatype Observation = Observation(
    projectId: string, key: string, findingId: string, hasType: bool, severity: Option<nat>)

  datatype Finding = Finding(severity: nat, occurrences: nat, firstSeen: int, lastSeen: int)

  /** Only an observation with a finding type and a severity becomes a finding. */
  predicate Actionable(obs: Observation) {
    obs.hasType && obs.severity.Some?
  }

  ghost predicate AllActionable(seen: seq<Observation>) {
    forall o :: o in seen ==> Actionable(o)
  }

  function SeverityOf(obs: Observation): int {
    if obs.severity.Some? then obs.severity.value else -1
  }

  /** How many of the observations are of one finding. */
  ghost function Tally(seen: seq<Observation>, id: string): nat {
    if seen == [] then 0
    else Tally(seen[..|seen| - 1], id) + if seen[|seen| - 1].findingId == id then 1 else 0
  }

  /** The highest severity that one finding was seen with; -1 when it never was. */
  ghost function Worst(seen: seq<Observation>, id: string): int {
    if seen == [] then -1
    else
      var last, rest := seen[|seen| - 1], Worst(seen[..|seen| - 1], id);
      if last.findingId == id && SeverityOf(last) > rest then SeverityOf(last) else rest
  }

  /** An observation shows the finding with this severity. */
  ghost predicate Seen(seen: seq<Observation>, id: string, severity: int) {
    exists i :: 0 <= i < |seen| && seen[i].findingId == id && SeverityOf(seen[i]) == severity
  }

  /** Tally is positive exactly for what was seen; the worst severity was seen and is not
      exceeded. */
  lemma {:induction false} WorstIsMaximum(seen: seq<Observation>, id: string)
    requires AllActionable(seen)
    ensures if Tally(seen, id) > 0 then Seen(seen, id, Worst(seen, id)) else Worst(seen, id) == -1
    ensures forall i :: 0 <= i < |seen| && seen[i].findingId == id ==> SeverityOf(seen[i]) <= Worst(seen, id) && Tally(seen, id) > 0
  {
    if seen != [] {
      var n := |seen| - 1;
      var last, rest := seen[n], seen[..n];
      assert last in seen && forall o :: o in rest ==> o in seen;
      WorstIsMaximum(rest, id);
      if Tally(rest, id) > 0 {
        var i :| 0 <= i < |rest| && rest[i].findingId == id && SeverityOf(rest[i]) == Worst(rest, id);
        assert seen[i] == rest[i];
      }
      forall i | 0 <= i < |seen| && seen[i].findingId == id
        ensures SeverityOf(seen[i]) <= Worst(seen, id) && Tally(seen, id) > 0
      {
        if i < n {
          assert rest[i] == seen[i];
        }
      }
    }
  }

  /** The findings are those of the observations processed, with their count and their
      highest severity. */
  ghost predicate Agree(findings: map<string, Finding>, seen: seq<Observation>) {
    forall id :: Matches(findings, seen, id)
  }

  ghost predicate Matches(findings: map<string, Finding>, seen: seq<Observation>, id: string) {
    && (id in findings <==> Tally(seen, id) > 0)
    && (id in findings ==> findings[id].occurrences == Tally(seen, id) && findings[id].severity == Worst(seen, id))
  }

  /** One more observation of a finding. */
  function Recorded(findings: map<string, Finding>, obs: Observation, now: int): map<string, Finding>
    requires Actionable(obs)
  {
    if obs.findingId !in findings then findings[obs.findingId := Finding(obs.severity.value, 1, now, now)]
    else
      var f := findings[obs.findingId];
      var severity := if obs.severity.value > f.severity then obs.severity.value else f.severity;
      findings[obs.findingId := Finding(severity, f.occurrences + 1, f.firstSeen, now)]
  }

  lemma AgreeAfter(findings: map<string, Finding>, seen: seq<Observation>, obs: Observation, now: int)
    requires Agree(findings, seen) && Actionable(obs)
    requires AllActionable(seen)
    ensures Agree(Recorded(findings, obs, now), seen + [obs])
  {
    assert (seen + [obs])[..|seen|] == seen;
    assert Matches(findings, seen, obs.findingId);
    WorstIsMaximum(seen, obs.findingId);
    forall id ensures Matches(Recorded(findings, obs, now), seen + [obs], id) {
      assert Matches(findings, seen, id);
    }
  }

  ghost function Pick(ids: set<string>): (id: string)
    requires ids != {}
    ensures id in ids
  {
    var id :| id in ids;
    id
  }

  /** The occurrences of all of the findings. */
  ghost function TotalOccurrences(findings: map<string, Finding>, ids: set<string>): nat
    requires ids <= findings.Keys
  {
    if ids == {} then 0
    else findings[Pick(ids)].occurrences + TotalOccurrences(findings, ids - {Pick(ids)})
  }

  /** How many of the observations are of one of these findings. */
  ghost function TallyOf(seen: seq<Observation>, ids: set<string>): nat {
    if seen == [] then 0
    else TallyOf(seen[..|seen| - 1], ids) + if seen[|seen| - 1].findingId in ids then 1 else 0
  }

  lemma {:induction false} TallySplits(seen: seq<Observation>, ids: set<string>, id: string)
    requires id in ids
    ensures TallyOf(seen, ids) == Tally(seen, id) + TallyOf(seen, ids - {id})
  {
    if seen != [] {
      TallySplits(seen[..|seen| - 1], ids, id);
    }
  }

  lemma {:induction false} TallyOfNone(seen: seq<Observation>)
    ensures TallyOf(seen, {}) == 0
  {
    if seen != [] {
      TallyOfNone(seen[..|seen| - 1]);
    }
  }

  lemma {:induction false} TotalIsTally(findings: map<string, Finding>, seen: seq<Observation>, ids: set<string>)
    requires Agree(findings, seen) && ids <= findings.Keys
    ensures TotalOccurrences(findings, ids) == TallyOf(seen, ids)
  {
    if ids == {} {
      TallyOfNone(seen);
    } else {
      assert Matches(findings, seen, Pick(ids));
      TallySplits(seen, ids, Pick(ids));
      TotalIsTally(findings, seen, ids - {Pick(ids)});
    }
  }

  /** No occurrence is lost or counted for two findings. */
  lemma OccurrencesConserved(findings: map<string, Finding>, seen: seq<Observation>)
    requires Agree(findings, seen) && AllActionable(seen)
    ensures TotalOccurrences(findings, findings.Keys) == |seen|
  {
    TotalIsTally(findings, seen, findings.Keys);
    forall i | 0 <= i < |seen| ensures seen[i].findingId in findings {
      WorstIsMaximum(seen, seen[i].findingId);
      assert Matches(findings, seen, seen[i].findingId);
    }
    TallyOfEvery(seen, findings.Keys);
  }

  lemma {:induction false} TallyOfEvery(seen: seq<Observation>, ids: set<string>)
    requires forall i :: 0 <= i < |seen| ==> seen[i].findingId in ids
    ensures TallyOf(seen, ids) == |seen|
  {
    if seen != [] {
      TallyOfEvery(seen[..|seen| - 1], ids);
    }
  }

  /** The actionable ones of the observations filed under the first `n` keys, in order. */
  ghost function Picked(observations: map<string, Observation>, keys: seq<string>, n: nat): (r: seq<Observation>)
    requires n <= |keys| && forall k :: k in keys ==> k in observations
    ensures AllActionable(r)
  {
    if n == 0 then []
    else
      var obs := observations[keys[n - 1]];
      Picked(observations, keys, n - 1) + if Actionable(obs) then [obs] else []
  }

  /** All are actionable and filed under their own keys. */
  ghost predicate AllFiled(observations: map<string, Observation>, seen: seq<Observation>) {
    AllActionable(seen) && forall o :: o in seen ==> o.key in observations && observations[o.key] == o
  }

  /** What is picked is filed under its own key, and every actionable one is picked. */
  lemma {:induction false} PickedFiled(observations: map<string, Observation>, keys: seq<string>, n: nat)
    requires n <= |keys| && forall k :: k in keys ==> k in observations && observations[k].key == k
    ensures AllFiled(observations, Picked(observations, keys, n))
    ensures forall i :: 0 <= i < n && Actionable(observations[keys[i]]) ==> observations[keys[i]] in Picked(observations, keys, n)
  {
    if n > 0 {
      PickedFiled(observations, keys, n - 1);
    }
  }

  /** `sorted(keys)` */
  function SortedKeys(keys: seq<string>): (r: seq<string>)
    ensures |r| == |keys| && forall k :: k in r <==> k in keys
  {
    MultisetElements(SortBy(LexLess, keys), keys);
    SortBy(LexLess, keys)
  }

  /** After an assessment at `now`: a finding seen in it was last seen now, any other is as it
      was, and a finding keeps the time it was first seen. */
  ghost predicate Dated(before: map<string, Finding>, after: map<string, Finding>, seen: seq<Observation>, now: int) {
    && before.Keys <= after.Keys
    && (forall id :: id in after ==> DatedAt(before, after, seen, now, id))
  }

  ghost predicate DatedAt(before: map<string, Finding>, after: map<string, Finding>, seen: seq<Observation>, now: int, id: string)
    requires id in after
  {
    && after[id].firstSeen == (if id in before then before[id].firstSeen else now)
    && (Tally(seen, id) > 0 ==> after[id].lastSeen == now)
    && (Tally(seen, id) == 0 ==> id in before && after[id] == before[id])
  }

  lemma DatedNext(before: map<string, Finding>, after: map<string, Finding>, seen: seq<Observation>, obs: Observation, now: int)
    requires Dated(before, after, seen, now) && Actionable(obs)
    ensures Dated(before, Recorded(after, obs, now), seen + [obs], now)
  {
    assert (seen + [obs])[..|seen|] == seen;
    var next := Recorded(after, obs, now);
    forall id | id in next ensures DatedAt(before, next, seen + [obs], now, id) {
      assert id in after ==> DatedAt(before, after, seen, now, id);
    }
  }

  class SiteFindings {
    const projectId: string
    var observations: map<string, Observation>
    /** The keys of `observations` in the order they came. */
    var keys: seq<string>
    var findings: map<string, Finding>
    /** Every actionable observation processed so far, with repetitions. */
    ghost var processed: seq<Observation>

    constructor (projectId: string)
      ensures Valid() && this.projectId == projectId
      ensures observations == map[] && findings == map[] && processed == []
    {
      this.projectId := projectId;
      observations, keys, findings, processed := map[], [], map[], [];
    }

    ghost predicate Valid()
      reads this
    {
      && Distinct(keys)
      && (forall k :: k in keys <==> k in observations)
      && (forall k :: k in observations ==> observations[k].key == k && observations[k].projectId == projectId)
      && AllFiled(observations, processed)
      && Agree(findings, processed)
    }

    /** Keeps the first observation with each key. A later one with the same key is
        dropped, whatever its severity. */
    method Ingest(obs: Observation) returns (added: bool)
      requires Valid()
      modifies this`observations, this`keys
      ensures Valid()
      ensures added <==> obs.projectId == projectId && obs.key !in old(observations)
      ensures observations == if added then old(observations)[obs.key := obs] else old(observations)
    {
      added := obs.projectId == projectId && obs.key !in observations;
      if added {
        assert obs.key !in keys;
        observations := observations[obs.key := obs];
        keys := keys + [obs.key];
      }
    }

    /** Counts one observation. */
    method Count(obs: Observation, now: int) returns (isNew: bool)
      requires Actionable(obs) && Agree(findings, processed) && AllActionable(processed)
      modifies this`findings, this`processed
      ensures Agree(findings, processed) && AllActionable(processed) && processed == old(processed) + [obs]
      ensures isNew <==> obs.findingId !in old(findings)
      ensures findings == Recorded(old(findings), obs, now)
      ensures |findings| == |old(findings)| + if isNew then 1 else 0
    {
      AgreeAfter(findings, processed, obs, now);
      isNew := obs.findingId !in findings;
      if isNew {
        findings := findings[obs.findingId := Finding(obs.severity.value, 1, now, now)];
      } else {
        var f := findings[obs.findingId];
        var severity := if obs.severity.value > f.severity then obs.severity.value else f.severity;
        findings := findings[obs.findingId := Finding(severity, f.occurrences + 1, f.firstSeen, now)];
      }
      processed := processed + [obs];
    }

    /** Counts every actionable observation once more, in key order. */
    method Assess(now: int) returns (created: nat, updated: nat)
      requires Valid()
      modifies this`findings, this`processed
      ensures Valid()
      ensures processed == old(processed) + Picked(observations, SortedKeys(keys), |keys|)
      ensures created + updated == |processed| - |old(processed)|
      ensures |findings| == |old(findings)| + created
      ensures Dated(old(findings), findings, Picked(observations, SortedKeys(keys), |keys|), now)
      ensures forall k :: k in observations ==>
        (observations[k] in Picked(observations, SortedKeys(keys), |keys|) <==> observations[k].hasType && observations[k].severity.Some?)
    {
      created, updated := CountAll(SortedKeys(keys), now);
      PickedFiled(observations, SortedKeys(keys), |keys|);
      EachPicked(SortedKeys(keys));
    }

    lemma EachPicked(order: seq<string>)
      requires (forall k :: k in order <==> k in observations) && forall k :: k in observations ==> observations[k].key == k
      ensures forall k :: k in observations ==>
        (observations[k] in Picked(observations, order, |order|) <==> observations[k].hasType && observations[k].severity.Some?)
    {
      PickedFiled(observations, order, |order|);
      forall k | k in observations && observations[k].hasType && observations[k].severity.Some?
        ensures observations[k] in Picked(observations, order, |order|)
      {
        var i :| 0 <= i < |order| && order[i] == k;
      }
    }

    method CountAll(order: seq<string>, now: int) returns (created: nat, updated: nat)
      requires Agree(findings, processed) && AllActionable(processed)
      requires forall k :: k in order ==> k in observations
      modifies this`findings, this`processed
      ensures Agree(findings, processed)
      ensures processed == old(processed) + Picked(observations, order, |order|)
      ensures created + updated == |processed| - |old(processed)|
      ensures |findings| == |old(findings)| + created
      ensures Dated(old(findings), findings, Picked(observations, order, |order|), now)
    {
      created, updated := 0, 0;
      ghost var seen: seq<Observation> := [];
      for i := 0 to |order|
        invariant Agree(findings, processed) && AllActionable(processed)
        invariant seen == Picked(observations, order, i) && processed == old(processed) + seen
        invariant created + updated == |seen|
        invariant |findings| == |old(findings)| + created
        invariant Dated(old(findings), findings, seen, now)
      {
        assert order[i] in order;
        var isNew := CountNext(observations[order[i]], now, old(findings), old(processed), seen);
        seen := seen + if isNew.Some? then [observations[order[i]]] else [];
        if isNew.Some? && isNew.value {
          created := created + 1;
        } else if isNew.Some? {
          updated := updated + 1;
        }
      }
    }

    /** Counts the observation if it is actionable. `before` and `earlier` are the findings and
        the observations the assessment began with, `seen` is what it has counted. */
    method CountNext(obs: Observation, now: int, ghost before: map<string, Finding>, ghost earlier: seq<Observation>,
                     ghost seen: seq<Observation>)
      returns (isNew: Option<bool>)
      requires Agree(findings, processed) && AllActionable(processed) && Dated(before, findings, seen, now)
      requires processed == earlier + seen
      modifies this`findings, this`processed
      ensures Agree(findings, processed) && AllActionable(processed)
      ensures processed == earlier + (seen + if Actionable(obs) then [obs] else [])
      ensures Dated(before, findings, seen + if Actionable(obs) then [obs] else [], now)
      ensures isNew.Some? <==> Actionable(obs)
      ensures |findings| == |old(findings)| + if isNew == Some(true) then 1 else 0
    {
      if !Actionable(obs) {
        assert seen + [] == seen;
        return None;
      }
      DatedNext(before, findings, seen, obs, now);
      var counted := Count(obs, now);
      return Some(counted);
    }
  }
}
