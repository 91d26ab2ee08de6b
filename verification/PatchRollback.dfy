/** When a failed patch application leaves the files as they were, and what a completed
    one leaves behind. */
module PatchRollback {
  import opened Outcomes
  import opened PatchHunks
  import opened PatchApply

  // ----- the names a run chooses -----

  /** The files that exist when the first `k` entries are done, if nothing fails. */
  ghost function NamesAfter(names: set<Path>, entries: seq<Entry>, k: nat): set<Path>
    requires k <= |entries|
  {
    if k == 0 then names
    else
      var e, before := entries[k - 1], NamesAfter(names, entries, k - 1);
      before + {if e.isNew then e.target else FreeName(before, BackupBase(e.target))}
  }

  /** The backup name that the `i`th entry gets if it changes a file. */
  ghost function BackupAt(names: set<Path>, entries: seq<Entry>, i: nat): Path
    requires i < |entries|
  {
    FreeName(NamesAfter(names, entries, i), BackupBase(entries[i].target))
  }

  /** The temporary name that the `i`th entry gets. */
  ghost function TempAt(names: set<Path>, entries: seq<Entry>, i: nat): Path
    requires i < |entries|
  {
    FreeName(NamesAfter(names, entries, if entries[i].isNew then i else i + 1), TempBase(entries[i].target))
  }

  /** The backup and temporary name of the `i`th entry. */
  ghost function NamesOf(names: set<Path>, entries: seq<Entry>, i: nat): set<Path>
    requires i < |entries|
  {
    {TempAt(names, entries, i)} + if entries[i].isNew then {} else {BackupAt(names, entries, i)}
  }

  ghost predicate ChosenAt(names: set<Path>, entries: seq<Entry>, i: nat, p: Path)
    requires i < |entries|
  {
    p in NamesOf(names, entries, i)
  }

  /** The backup and temporary names of the first `k` entries. */
  ghost function ChosenNames(names: set<Path>, entries: seq<Entry>, k: nat): set<Path>
    requires k <= |entries|
  {
    set i, p | 0 <= i < k && p in NamesOf(names, entries, i) :: p
  }

  lemma WhoChose(names: set<Path>, entries: seq<Entry>, k: nat, p: Path) returns (i: nat)
    requires k <= |entries| && p in ChosenNames(names, entries, k)
    ensures i < k && ChosenAt(names, entries, i, p)
  {
    i :| 0 <= i < k && p in NamesOf(names, entries, i);
  }

  lemma ChosenGrow(names: set<Path>, entries: seq<Entry>, j: nat, k: nat, p: Path)
    requires j <= k <= |entries| && p in ChosenNames(names, entries, j)
    ensures p in ChosenNames(names, entries, k)
  {
  }

  lemma ChosenNow(names: set<Path>, entries: seq<Entry>, k: nat, p: Path)
    requires k < |entries| && p in NamesOf(names, entries, k)
    ensures p in ChosenNames(names, entries, k + 1)
  {
  }

  /** No file to be created has the backup or temporary name of an earlier entry. */
  ghost predicate NamesApart(names: set<Path>, entries: seq<Entry>) {
    forall i, j :: 0 <= i < j < |entries| && entries[j].isNew ==> !ChosenAt(names, entries, i, entries[j].target)
  }

  lemma {:induction false} NamesGrow(names: set<Path>, entries: seq<Entry>, j: nat, k: nat, p: Path)
    requires j <= k <= |entries| && p in NamesAfter(names, entries, j)
    ensures p in NamesAfter(names, entries, k)
    decreases k
  {
    if j < k {
      NamesGrow(names, entries, j, k - 1, p);
    }
  }

  /** A chosen name is new: no original file has it, and no file created so far. */
  lemma ChosenIsNew(names: set<Path>, entries: seq<Entry>, i: nat, p: Path)
    requires i < |entries| && ChosenAt(names, entries, i, p)
    ensures p !in NamesAfter(names, entries, i) && p !in names
    ensures forall j :: 0 <= j <= i && entries[j].isNew ==> entries[j].target != p
  {
    ChosenIsFree(names, entries, i, p);
    if p in names {
      NamesGrow(names, entries, 0, i, p);
    }
    forall j | 0 <= j < i && entries[j].isNew ensures entries[j].target != p {
      CreatedByThen(names, entries, j, i);
    }
  }

  lemma CreatedByThen(names: set<Path>, entries: seq<Entry>, j: nat, i: nat)
    requires j < i <= |entries| && entries[j].isNew
    ensures entries[j].target in NamesAfter(names, entries, i)
  {
    NamesGrow(names, entries, j + 1, i, entries[j].target);
  }

  lemma ChosenIsFree(names: set<Path>, entries: seq<Entry>, i: nat, p: Path)
    requires i < |entries| && ChosenAt(names, entries, i, p)
    ensures p !in NamesAfter(names, entries, i)
    ensures entries[i].isNew ==> entries[i].target != p
  {
    var before := NamesAfter(names, entries, if entries[i].isNew then i else i + 1);
    FreeNameIsNew(NamesAfter(names, entries, i), BackupBase(entries[i].target));
    FreeNameIsNew(before, TempBase(entries[i].target));
    TempIsNotTarget(before, entries[i].target);
  }

  /** So names that are apart differ from every file to be created. */
  lemma ChosenIsNoCreated(names: set<Path>, entries: seq<Entry>, k: nat, p: Path, j: nat)
    requires k <= |entries| && p in ChosenNames(names, entries, k) && NamesApart(names, entries)
    requires j < |entries| && entries[j].isNew
    ensures entries[j].target != p
  {
    var i := WhoChose(names, entries, k, p);
    ChosenIsNew(names, entries, i, p);
  }

  // ----- the condition, and what it is for -----

  /** A changed file named by two entries ends up with the content it started with. */
  predicate RepeatsHarmless(orig: Files, entries: seq<Entry>) {
    HarmlessIn(orig, entries, Previews(orig, entries))
  }

  predicate HarmlessIn(orig: Files, entries: seq<Entry>, previews: Files) {
    forall i, j :: 0 <= i < j < |entries| && !entries[i].isNew && !entries[j].isNew
      && entries[i].target == entries[j].target && entries[i].target in orig && entries[i].target in previews
      ==> previews[entries[i].target] == orig[entries[i].target]
  }

  /** What verification leaves known of the entries. */
  predicate Verified(orig: Files, entries: seq<Entry>, previews: Files) {
    forall i :: 0 <= i < |entries| ==> (entries[i].isNew <==> entries[i].target !in orig) && entries[i].target in previews
  }

  /** Every original file has its original content; anything else is a backup or temporary
      file that the run made; no target that was to be created exists. */
  ghost predicate Restored(orig: Files, entries: seq<Entry>, files: Files) {
    && (forall p :: p in orig ==> p in files && files[p] == orig[p])
    && (forall p :: p in files && p !in orig ==> p in ChosenNames(orig.Keys, entries, |entries|))
    && (forall i :: 0 <= i < |entries| && entries[i].isNew ==> entries[i].target !in files)
  }

  /** After that the same patch applies again. */
  lemma RestoredAppliesAgain(orig: Files, entries: seq<Entry>, files: Files)
    requires Applicable(orig, entries) && Restored(orig, entries, files)
    ensures Applicable(files, entries)
  {
    forall i | 0 <= i < |entries| ensures Wanted(files, entries[i]).Some? {
      assert Wanted(orig, entries[i]).Some?;
    }
  }

  // ----- the invariant of the write stage -----

  /** Original files: still there, holding the original or the wanted content, and the
      original one unless they were backed up. */
  ghost predicate OriginalsKept(orig: Files, previews: Files, r: Run) {
    forall p :: p in orig ==>
      && p in r.files
      && (r.files[p] == orig[p] || (p in previews && r.files[p] == previews[p]))
      && (p !in r.backups ==> r.files[p] == orig[p])
  }

  /** Backups: of changed files only, under chosen names, holding the original content. */
  ghost predicate BackupsKept(orig: Files, chosen: set<Path>, changed: set<Path>, r: Run) {
    forall p :: p in r.backups ==>
      && p in orig && p in changed
      && r.backups[p] in chosen && r.backups[p] !in orig
      && r.backups[p] in r.files && r.files[r.backups[p]] == orig[p]
  }

  ghost predicate NamesKept(orig: Files, chosen: set<Path>, r: Run) {
    && (forall p :: p in r.order <==> p in r.backups)
    && (forall p :: p in r.files ==> p in orig || p in r.applied || p in chosen)
    && (forall p :: p in r.applied && p in orig ==> p in r.backups)
  }

  /** What holds of a run in which these names were chosen and these files were changed. */
  ghost predicate Kept(orig: Files, previews: Files, chosen: set<Path>, changed: set<Path>, r: Run) {
    && OriginalsKept(orig, previews, r)
    && BackupsKept(orig, chosen, changed, r)
    && NamesKept(orig, chosen, r)
  }

  lemma KeptMore(orig: Files, previews: Files, chosen: set<Path>, changed: set<Path>, chosen': set<Path>, changed': set<Path>, r: Run)
    requires Kept(orig, previews, chosen, changed, r) && chosen <= chosen' && changed <= changed'
    ensures Kept(orig, previews, chosen', changed', r)
  {
  }

  /** Adding a file under a chosen name that is free disturbs nothing. */
  lemma KeptLeave(orig: Files, previews: Files, chosen: set<Path>, changed: set<Path>, r: Run, b: Path,
                  content: Option<seq<Line>>, ops: nat)
    requires Kept(orig, previews, chosen, changed, r) && b !in r.files && b in chosen
    ensures Kept(orig, previews, chosen, changed, r.(files := Leave(r.files, b, content), ops := ops, failed := true))
  {
  }

  lemma CopyCases(r: Run, t: Path, name: Path, f: Failure)
    requires t in r.files && name == FreeName(r.files.Keys, BackupBase(t))
    ensures BackUp(r, t, f) ==
      if r.ops == f.at then r.(files := Leave(r.files, name, f.debris), ops := r.ops, failed := true)
      else r.(files := r.files[name := r.files[t]], backups := r.backups[t := name],
              order := if t in r.backups then r.order else r.order + [t], ops := r.ops + 1)
  {
  }

  /** The run after a file was copied to its backup. */
  function Copied(r: Run, t: Path, name: Path, order: seq<Path>, ops: nat): Run
    requires t in r.files
  {
    r.(files := r.files[name := r.files[t]], backups := r.backups[t := name], order := order, ops := ops)
  }

  lemma CopyKeepsOriginals(orig: Files, previews: Files, r: Run, t: Path, name: Path, order: seq<Path>, ops: nat)
    requires OriginalsKept(orig, previews, r) && name !in r.files && t in orig
    ensures OriginalsKept(orig, previews, Copied(r, t, name, order, ops))
  {
  }

  lemma CopyKeepsBackups(orig: Files, chosen: set<Path>, changed: set<Path>, r: Run, t: Path, name: Path, order: seq<Path>, ops: nat)
    requires BackupsKept(orig, chosen, changed, r) && name !in r.files && name !in orig && name in chosen
    requires t in orig && t in changed && t in r.files && r.files[t] == orig[t]
    ensures BackupsKept(orig, chosen, changed, Copied(r, t, name, order, ops))
  {
  }

  lemma KeptCopy(orig: Files, previews: Files, chosen: set<Path>, changed: set<Path>, r: Run, t: Path, name: Path, order: seq<Path>, ops: nat)
    requires Kept(orig, previews, chosen, changed, r) && name !in r.files && name in chosen
    requires t in orig && t in changed && r.files[t] == orig[t]
    requires order == if t in r.backups then r.order else r.order + [t]
    ensures Kept(orig, previews, chosen, changed, Copied(r, t, name, order, ops))
  {
    CopyKeepsOriginals(orig, previews, r, t, name, order, ops);
    CopyKeepsBackups(orig, chosen, changed, r, t, name, order, ops);
  }

  lemma KeptBackUp(orig: Files, previews: Files, chosen: set<Path>, changed: set<Path>, r: Run, t: Path, f: Failure)
    requires Kept(orig, previews, chosen, changed, r)
    requires t in orig && t in changed && r.files[t] == orig[t]
    requires FreeName(r.files.Keys, BackupBase(t)) in chosen
    ensures Kept(orig, previews, chosen, changed, BackUp(r, t, f))
    ensures !BackUp(r, t, f).failed ==> t in BackUp(r, t, f).backups
  {
    var name := FreeName(r.files.Keys, BackupBase(t));
    FreeNameIsNew(r.files.Keys, BackupBase(t));
    CopyCases(r, t, name, f);
    if r.ops == f.at {
      KeptLeave(orig, previews, chosen, changed, r, name, f.debris, r.ops);
    } else {
      KeptCopy(orig, previews, chosen, changed, r, t, name, if t in r.backups then r.order else r.order + [t], r.ops + 1);
    }
  }

  lemma WriteCases(r: Run, t: Path, name: Path, lines: seq<Line>, f: Failure)
    requires name == FreeName(r.files.Keys, TempBase(t))
    ensures Write(r, t, lines, f) ==
      if r.ops == f.at then r.(files := Leave(r.files, name, f.debris), ops := r.ops, failed := true)
      else if r.ops + 1 == f.at then r.(files := Leave(r.files, name, Some(lines)), ops := r.ops + 1, failed := true)
      else r.(files := r.files[t := lines], applied := r.applied + [t], ops := r.ops + 2)
  {
  }

  lemma KeptReplace(orig: Files, previews: Files, chosen: set<Path>, changed: set<Path>, r: Run, t: Path, ops: nat)
    requires Kept(orig, previews, chosen, changed, r) && t in previews && (t in orig ==> t in r.backups)
    requires forall p :: p in r.backups ==> r.backups[p] != t
    ensures Kept(orig, previews, chosen, changed, r.(files := r.files[t := previews[t]], applied := r.applied + [t], ops := ops))
  {
  }

  lemma KeptWrite(orig: Files, previews: Files, chosen: set<Path>, changed: set<Path>, r: Run, t: Path, f: Failure)
    requires Kept(orig, previews, chosen, changed, r) && t in previews && (t in orig ==> t in r.backups)
    requires forall p :: p in r.backups ==> r.backups[p] != t
    requires FreeName(r.files.Keys, TempBase(t)) in chosen
    ensures Kept(orig, previews, chosen, changed, Write(r, t, previews[t], f))
  {
    var name := FreeName(r.files.Keys, TempBase(t));
    FreeNameIsNew(r.files.Keys, TempBase(t));
    WriteCases(r, t, name, previews[t], f);
    if r.ops == f.at {
      KeptLeave(orig, previews, chosen, changed, r, name, f.debris, r.ops);
    } else if r.ops + 1 == f.at {
      KeptLeave(orig, previews, chosen, changed, r, name, Some(previews[t]), r.ops + 1);
    } else {
      KeptReplace(orig, previews, chosen, changed, r, t, r.ops + 2);
    }
  }

  /** The files changed by the first `k` entries. */
  function ChangedBefore(entries: seq<Entry>, k: nat): set<Path>
    requires k <= |entries|
  {
    set i | 0 <= i < k && !entries[i].isNew :: entries[i].target
  }

  ghost predicate KeptAt(orig: Files, entries: seq<Entry>, previews: Files, k: nat, r: Run) {
    && k <= |entries|
    && Kept(orig, previews, ChosenNames(orig.Keys, entries, k), ChangedBefore(entries, k), r)
  }

  /** The files that exist are those a run without a failure would have. */
  ghost predicate OnCourse(orig: Files, entries: seq<Entry>, k: nat, r: Run) {
    k <= |entries| && !r.failed && r.files.Keys == NamesAfter(orig.Keys, entries, k)
  }

  /** A target about to be backed up still holds its original content. */
  lemma TargetUnchanged(orig: Files, entries: seq<Entry>, previews: Files, k: nat, r: Run)
    requires k < |entries| && KeptAt(orig, entries, previews, k, r) && HarmlessIn(orig, entries, previews)
    requires !entries[k].isNew && entries[k].target in orig
    ensures r.files[entries[k].target] == orig[entries[k].target]
  {
    var t := entries[k].target;
    if t in r.backups {
      assert t in ChangedBefore(entries, k);
      var i :| 0 <= i < k && !entries[i].isNew && entries[i].target == t;
    }
  }

  lemma TargetIsNoBackup(orig: Files, entries: seq<Entry>, k: nat, chosen: set<Path>, changed: set<Path>, r: Run)
    requires k < |entries| && NamesApart(orig.Keys, entries) && BackupsKept(orig, chosen, changed, r)
    requires chosen == ChosenNames(orig.Keys, entries, k + 1)
    requires entries[k].isNew || entries[k].target in orig
    ensures forall p :: p in r.backups ==> r.backups[p] != entries[k].target
  {
    if entries[k].isNew {
      forall p | p in r.backups ensures r.backups[p] != entries[k].target {
        ChosenIsNoCreated(orig.Keys, entries, k + 1, r.backups[p], k);
      }
    }
  }

  lemma VerifiedTargets(orig: Files, entries: seq<Entry>)
    requires Applicable(orig, entries)
    ensures Verified(orig, entries, Previews(orig, entries))
  {
    forall i | 0 <= i < |entries|
      ensures (entries[i].isNew <==> entries[i].target !in orig) && entries[i].target in Previews(orig, entries)
    {
      assert Wanted(orig, entries[i]).Some?;
      TargetHasPreview(orig, entries, i);
    }
  }

  lemma {:induction false} TargetHasPreview(orig: Files, entries: seq<Entry>, i: nat)
    requires i < |entries| && Wanted(orig, entries[i]).Some?
    ensures entries[i].target in Previews(orig, entries)
  {
    if i < |entries| - 1 {
      TargetHasPreview(orig, entries[..|entries| - 1], i);
    }
  }

  lemma StepNames(orig: Files, entries: seq<Entry>, k: nat)
    requires k < |entries|
    ensures ChosenNames(orig.Keys, entries, k) <= ChosenNames(orig.Keys, entries, k + 1)
    ensures TempAt(orig.Keys, entries, k) in ChosenNames(orig.Keys, entries, k + 1)
    ensures !entries[k].isNew ==> BackupAt(orig.Keys, entries, k) in ChosenNames(orig.Keys, entries, k + 1)
    ensures ChangedBefore(entries, k) <= ChangedBefore(entries, k + 1)
    ensures !entries[k].isNew ==> entries[k].target in ChangedBefore(entries, k + 1)
  {
    ChosenNow(orig.Keys, entries, k, TempAt(orig.Keys, entries, k));
    if !entries[k].isNew {
      ChosenNow(orig.Keys, entries, k, BackupAt(orig.Keys, entries, k));
    }
  }

  lemma KeptEntry(orig: Files, entries: seq<Entry>, previews: Files, k: nat, r: Run, f: Failure)
    requires Verified(orig, entries, previews) && NamesApart(orig.Keys, entries) && HarmlessIn(orig, entries, previews)
    requires k < |entries| && KeptAt(orig, entries, previews, k, r) && OnCourse(orig, entries, k, r)
    ensures KeptAt(orig, entries, previews, k + 1, WriteEntry(r, entries[k], previews, f))
  {
    var t := entries[k].target;
    var chosen, changed := ChosenNames(orig.Keys, entries, k + 1), ChangedBefore(entries, k + 1);
    StepNames(orig, entries, k);
    KeptMore(orig, previews, ChosenNames(orig.Keys, entries, k), ChangedBefore(entries, k), chosen, changed, r);
    if entries[k].isNew {
      TargetIsNoBackup(orig, entries, k, chosen, changed, r);
      KeptWrite(orig, previews, chosen, changed, r, t, f);
    } else {
      TargetUnchanged(orig, entries, previews, k, r);
      KeptBackUp(orig, previews, chosen, changed, r, t, f);
      var b := BackUp(r, t, f);
      if !b.failed {
        BackUpOnCourse(orig, entries, k, r, f);
        TargetIsNoBackup(orig, entries, k, chosen, changed, b);
        KeptWrite(orig, previews, chosen, changed, b, t, f);
      }
    }
  }

  lemma BackUpOnCourse(orig: Files, entries: seq<Entry>, k: nat, r: Run, f: Failure)
    requires k < |entries| && OnCourse(orig, entries, k, r) && !entries[k].isNew && entries[k].target in r.files
    ensures var b := BackUp(r, entries[k].target, f); !b.failed ==> OnCourse(orig, entries, k + 1, b)
  {
  }

  lemma EntryOnCourse(orig: Files, entries: seq<Entry>, previews: Files, k: nat, r: Run, f: Failure)
    requires k < |entries| && OnCourse(orig, entries, k, r)
    requires !entries[k].isNew ==> entries[k].target in r.files
    ensures var w := WriteEntry(r, entries[k], previews, f); !w.failed ==> OnCourse(orig, entries, k + 1, w)
  {
    if !entries[k].isNew {
      BackUpOnCourse(orig, entries, k, r, f);
    }
  }

  lemma KeptStep(orig: Files, entries: seq<Entry>, previews: Files, k: nat, r: Run, f: Failure)
    requires Verified(orig, entries, previews) && NamesApart(orig.Keys, entries) && HarmlessIn(orig, entries, previews)
    requires k < |entries| && KeptAt(orig, entries, previews, k, r) && OnCourse(orig, entries, k, r)
    ensures var w := WriteEntry(r, entries[k], previews, f);
      KeptAt(orig, entries, previews, k + 1, w) && (!w.failed ==> OnCourse(orig, entries, k + 1, w))
  {
    KeptEntry(orig, entries, previews, k, r, f);
    EntryOnCourse(orig, entries, previews, k, r, f);
  }

  lemma ForwardStep(r: Run, entries: seq<Entry>, k: nat, previews: Files, f: Failure)
    requires k <= |entries|
    ensures Forward(r, entries[k..], previews, f) ==
      if r.failed || k == |entries| then r else Forward(WriteEntry(r, entries[k], previews, f), entries[k + 1..], previews, f)
  {
    if k < |entries| {
      assert entries[k..][0] == entries[k] && entries[k..][1..] == entries[k + 1..];
    }
  }

  lemma {:induction false} ForwardKept(orig: Files, entries: seq<Entry>, previews: Files, k: nat, r: Run, f: Failure)
    returns (n: nat, run: Run)
    requires Verified(orig, entries, previews) && NamesApart(orig.Keys, entries) && HarmlessIn(orig, entries, previews)
    requires KeptAt(orig, entries, previews, k, r) && (!r.failed ==> OnCourse(orig, entries, k, r))
    ensures run == Forward(r, entries[k..], previews, f) && KeptAt(orig, entries, previews, n, run)
    decreases |entries| - k
  {
    ForwardStep(r, entries, k, previews, f);
    if !r.failed && k < |entries| {
      KeptStep(orig, entries, previews, k, r, f);
      n, run := ForwardKept(orig, entries, previews, k + 1, WriteEntry(r, entries[k], previews, f), f);
    } else {
      n, run := k, r;
    }
  }

  lemma RunKept(orig: Files, entries: seq<Entry>, f: Failure) returns (n: nat)
    requires Applicable(orig, entries) && NamesApart(orig.Keys, entries) && RepeatsHarmless(orig, entries)
    ensures var previews := Previews(orig, entries);
      KeptAt(orig, entries, previews, n, Forward(Start0(orig), entries, previews, f))
  {
    assert entries[0..] == entries;
    VerifiedTargets(orig, entries);
    var run;
    n, run := ForwardKept(orig, entries, Previews(orig, entries), 0, Start0(orig), f);
  }

  // ----- rollback -----

  lemma {:induction false} RestoreAllFacts(files: Files, backups: map<Path, Path>, order: seq<Path>)
    requires forall p :: p in order ==> p in backups && backups[p] in files && backups[p] !in order
    ensures RestoreAll(files, backups, order).Keys == files.Keys + set p | p in order
    ensures forall p :: p in order ==> RestoreAll(files, backups, order)[p] == files[backups[p]]
    ensures forall p :: p in files && p !in order ==> RestoreAll(files, backups, order)[p] == files[p]
  {
    if order != [] {
      var rest, last := order[..|order| - 1], order[|order| - 1];
      assert order == rest + [last];
      RestoreAllFacts(files, backups, rest);
      assert backups[last] !in rest;
    }
  }

  lemma {:induction false} RemoveCreatedFacts(files: Files, backups: map<Path, Path>, applied: seq<Path>)
    ensures RemoveCreated(files, backups, applied) == map p | p in files && (p in applied ==> p in backups) :: files[p]
  {
    if applied != [] {
      var rest, last := applied[..|applied| - 1], applied[|applied| - 1];
      assert applied == rest + [last];
      RemoveCreatedFacts(files, backups, rest);
    }
  }

  lemma RollbackFacts(r: Run)
    requires forall p :: p in r.order <==> p in r.backups
    requires forall p :: p in r.order ==> r.backups[p] in r.files && r.backups[p] !in r.order
    ensures forall p :: p in Rollback(r) <==> (p in r.files || p in r.backups) && (p in r.applied ==> p in r.backups)
    ensures forall p :: p in Rollback(r) ==> Rollback(r)[p] == r.files[if p in r.backups then r.backups[p] else p]
  {
    RestoreAllFacts(r.files, r.backups, r.order);
    RemoveCreatedFacts(RestoreAll(r.files, r.backups, r.order), r.backups, r.applied);
  }

  lemma KeptRestores(orig: Files, entries: seq<Entry>, previews: Files, k: nat, r: Run)
    requires KeptAt(orig, entries, previews, k, r) && NamesApart(orig.Keys, entries)
    requires forall i :: 0 <= i < |entries| && entries[i].isNew ==> entries[i].target !in orig
    ensures Restored(orig, entries, Rollback(r))
  {
    RollbackFacts(r);
    var files := Rollback(r);
    forall p | p in files && p !in orig ensures p in ChosenNames(orig.Keys, entries, |entries|) {
      ChosenGrow(orig.Keys, entries, k, |entries|, p);
    }
    forall j | 0 <= j < |entries| && entries[j].isNew ensures entries[j].target !in files {
      if entries[j].target in files {
        ChosenIsNoCreated(orig.Keys, entries, k, entries[j].target, j);
      }
    }
  }

  /** If every file changed by two entries ends as it began and no file to be created has an earlier
      entry's backup or temporary name, rollback restores everything, whichever copy, write
      or replace fails. */
  lemma RollbackRestores(orig: Files, entries: seq<Entry>, f: Failure)
    requires Applicable(orig, entries) && NamesApart(orig.Keys, entries) && RepeatsHarmless(orig, entries)
    ensures Restored(orig, entries, Rollback(Forward(Start0(orig), entries, Previews(orig, entries), f)))
  {
    var n := RunKept(orig, entries, f);
    VerifiedTargets(orig, entries);
    KeptRestores(orig, entries, Previews(orig, entries), n, Forward(Start0(orig), entries, Previews(orig, entries), f));
  }

  // ----- a completed run -----

  /** The first `k` targets hold what was wanted, the other original files what they held. */
  ghost predicate Installed(orig: Files, entries: seq<Entry>, previews: Files, k: nat, files: Files) {
    && k <= |entries|
    && orig.Keys <= files.Keys
    && (forall i :: 0 <= i < k && entries[i].target in previews ==>
          entries[i].target in files && files[entries[i].target] == previews[entries[i].target])
    && (forall p :: p in orig && !TargetBefore(entries, k, p) ==> files[p] == orig[p])
  }

  predicate TargetBefore(entries: seq<Entry>, k: nat, p: Path)
    requires k <= |entries|
  {
    exists i :: 0 <= i < k && entries[i].target == p
  }

  /** Backups are of original files, under names no original file has. */
  ghost predicate BackupShape(orig: Files, r: Run) {
    && (forall p :: p in r.backups ==> p in orig && r.backups[p] !in orig && r.backups[p] in r.files)
    && (forall p :: p in r.order <==> p in r.backups)
  }

  function Cost(e: Entry): nat {
    if e.isNew then 2 else 3
  }

  function CostOf(entries: seq<Entry>): nat {
    if entries == [] then 0 else CostOf(entries[..|entries| - 1]) + Cost(entries[|entries| - 1])
  }

  /** The backup of an entry's target is the one of its latest change. */
  ghost predicate LatestBackup(orig: Files, entries: seq<Entry>, k: nat, r: Run, i: nat)
    requires i < k <= |entries|
  {
    !entries[i].isNew && (forall m :: i < m < k && !entries[m].isNew ==> entries[m].target != entries[i].target)
    ==> entries[i].target in r.backups && r.backups[entries[i].target] == BackupAt(orig.Keys, entries, i)
  }

  ghost predicate AllLatest(orig: Files, entries: seq<Entry>, k: nat, r: Run)
    requires k <= |entries|
  {
    forall i :: 0 <= i < k ==> LatestBackup(orig, entries, k, r, i)
  }

  /** The state after `k` entries when nothing has failed. */
  ghost predicate Progress(orig: Files, entries: seq<Entry>, previews: Files, k: nat, r: Run) {
    && OnCourse(orig, entries, k, r)
    && Installed(orig, entries, previews, k, r.files)
    && BackupShape(orig, r)
    && (forall p :: p in r.applied ==> p in r.files)
    && (forall i :: 0 <= i < k ==> entries[i].target in r.applied)
    && AllLatest(orig, entries, k, r)
    && r.ops == CostOf(entries[..k])
  }

  lemma CostSnoc(entries: seq<Entry>, k: nat)
    requires k < |entries|
    ensures CostOf(entries[..k + 1]) == CostOf(entries[..k]) + Cost(entries[k])
  {
    assert entries[..k + 1][..k] == entries[..k];
  }

  lemma {:induction false} CostGrows(entries: seq<Entry>, j: nat, k: nat)
    requires j <= k <= |entries|
    ensures CostOf(entries[..j]) <= CostOf(entries[..k])
    decreases k
  {
    if j < k {
      CostGrows(entries, j, k - 1);
      CostSnoc(entries, k - 1);
    }
  }

  lemma ProgressEntry(orig: Files, entries: seq<Entry>, previews: Files, k: nat, r: Run, f: Failure)
    requires Progress(orig, entries, previews, k, r) && k < |entries|
    requires entries[k].target in previews && (!entries[k].isNew ==> entries[k].target in orig)
    ensures var w := WriteEntry(r, entries[k], previews, f);
      && (w.failed <==> r.ops <= f.at < r.ops + Cost(entries[k]))
      && (!w.failed ==> Progress(orig, entries, previews, k + 1, w))
  {
    EntryCost(r, entries[k], previews, f);
    if !WriteEntry(r, entries[k], previews, f).failed {
      EntryInstalls(orig, entries, previews, k, r, f);
      EntryOnCourse(orig, entries, previews, k, r, f);
      CostSnoc(entries, k);
      LatestAfter(orig, entries, previews, k, r, f);
    }
  }

  /** An entry fails exactly if one of its operations does, and otherwise takes them all. */
  lemma EntryCost(r: Run, e: Entry, previews: Files, f: Failure)
    requires !r.failed && e.target in previews && (!e.isNew ==> e.target in r.files)
    ensures var w := WriteEntry(r, e, previews, f);
      && (w.failed <==> r.ops <= f.at < r.ops + Cost(e))
      && (!w.failed ==> w.ops == r.ops + Cost(e) && w.applied == r.applied + [e.target])
  {
  }

  lemma EntryInstalls(orig: Files, entries: seq<Entry>, previews: Files, k: nat, r: Run, f: Failure)
    requires k < |entries| && OnCourse(orig, entries, k, r) && Installed(orig, entries, previews, k, r.files) && BackupShape(orig, r)
    requires entries[k].target in previews && (!entries[k].isNew ==> entries[k].target in orig)
    requires forall p :: p in r.applied ==> p in r.files
    requires !WriteEntry(r, entries[k], previews, f).failed
    ensures var w := WriteEntry(r, entries[k], previews, f);
      && Installed(orig, entries, previews, k + 1, w.files) && BackupShape(orig, w) && forall p :: p in w.applied ==> p in w.files
  {
    var e := entries[k];
    var b := if e.isNew then r else BackUp(r, e.target, f);
    assert BackupShape(orig, b) && Installed(orig, entries, previews, k, b.files);
    InstallWrite(orig, entries, previews, k, b.files);
  }

  lemma LatestAfter(orig: Files, entries: seq<Entry>, previews: Files, k: nat, r: Run, f: Failure)
    requires k < |entries| && OnCourse(orig, entries, k, r) && AllLatest(orig, entries, k, r)
    requires !WriteEntry(r, entries[k], previews, f).failed
    ensures AllLatest(orig, entries, k + 1, WriteEntry(r, entries[k], previews, f))
  {
    var w, next := WriteEntry(r, entries[k], previews, f), k + 1;
    forall i | 0 <= i < next ensures LatestBackup(orig, entries, next, w, i) {
      assert i < k ==> LatestBackup(orig, entries, k, r, i);
    }
  }

  /** Writing one more target installs it. */
  lemma InstallWrite(orig: Files, entries: seq<Entry>, previews: Files, k: nat, files: Files)
    requires k < |entries| && Installed(orig, entries, previews, k, files) && entries[k].target in previews
    ensures Installed(orig, entries, previews, k + 1, files[entries[k].target := previews[entries[k].target]])
  {
    assert TargetBefore(entries, k + 1, entries[k].target);
    assert forall p :: TargetBefore(entries, k, p) ==> TargetBefore(entries, k + 1, p);
  }

  /** The write stage gets through the first `k` entries if the failure comes later. */
  lemma {:induction false} UnfailedPrefix(orig: Files, entries: seq<Entry>, previews: Files, k: nat, f: Failure) returns (r: Run)
    requires Applicable(orig, entries) && previews == Previews(orig, entries)
    requires k <= |entries| && CostOf(entries[..k]) <= f.at
    ensures Progress(orig, entries, previews, k, r)
    ensures Forward(Start0(orig), entries, previews, f) == Forward(r, entries[k..], previews, f)
  {
    if k == 0 {
      r := Start0(orig);
      assert entries[0..] == entries;
    } else {
      CostSnoc(entries, k - 1);
      var before := UnfailedPrefix(orig, entries, previews, k - 1, f);
      VerifiedTargets(orig, entries);
      ProgressEntry(orig, entries, previews, k - 1, before, f);
      assert entries[k - 1..][0] == entries[k - 1] && entries[k - 1..][1..] == entries[k..];
      r := WriteEntry(before, entries[k - 1], previews, f);
    }
  }

  /** The state in which entry `k` fails. */
  lemma FailsAt(orig: Files, entries: seq<Entry>, previews: Files, k: nat, f: Failure) returns (r: Run)
    requires Applicable(orig, entries) && previews == Previews(orig, entries) && k < |entries|
    requires CostOf(entries[..k]) <= f.at < CostOf(entries[..k]) + Cost(entries[k])
    ensures Progress(orig, entries, previews, k, r)
    ensures Forward(Start0(orig), entries, previews, f) == WriteEntry(r, entries[k], previews, f)
    ensures WriteEntry(r, entries[k], previews, f).failed
  {
    r := UnfailedPrefix(orig, entries, previews, k, f);
    VerifiedTargets(orig, entries);
    ProgressEntry(orig, entries, previews, k, r, f);
    assert entries[k..][0] == entries[k];
  }

  lemma {:induction false} FailingEntry(entries: seq<Entry>, n: nat, at: nat) returns (k: nat)
    requires n <= |entries| && at < CostOf(entries[..n])
    ensures k < n && CostOf(entries[..k]) <= at < CostOf(entries[..k]) + Cost(entries[k])
  {
    CostSnoc(entries, n - 1);
    if CostOf(entries[..n - 1]) <= at {
      k := n - 1;
    } else {
      k := FailingEntry(entries, n - 1, at);
    }
  }

  /** Some entry got this file: it is the target of a creation or the backup of a change. */
  ghost predicate MadeBy(names: set<Path>, entries: seq<Entry>, i: nat, p: Path)
    requires i < |entries|
  {
    p == if entries[i].isNew then entries[i].target else BackupAt(names, entries, i)
  }

  lemma {:induction false} NamesAfterExactly(names: set<Path>, entries: seq<Entry>, k: nat, p: Path)
    requires k <= |entries|
    ensures p in NamesAfter(names, entries, k) <==> p in names || exists i :: 0 <= i < k && MadeBy(names, entries, i, p)
  {
    if k > 0 {
      NamesAfterExactly(names, entries, k - 1, p);
      assert MadeBy(names, entries, k - 1, if entries[k - 1].isNew then entries[k - 1].target else BackupAt(names, entries, k - 1));
    }
  }

  /** The write stage completes exactly if the failure would come after its last operation. */
  lemma CompletesExactly(orig: Files, entries: seq<Entry>, f: Failure)
    requires Applicable(orig, entries)
    ensures var run := Forward(Start0(orig), entries, Previews(orig, entries), f);
      && (run.failed <==> f.at < CostOf(entries))
      && (!run.failed ==> Progress(orig, entries, Previews(orig, entries), |entries|, run))
  {
    assert entries[..|entries|] == entries;
    if f.at < CostOf(entries) {
      var k := FailingEntry(entries, |entries|, f.at);
      var r := FailsAt(orig, entries, Previews(orig, entries), k, f);
    } else {
      var r := UnfailedPrefix(orig, entries, Previews(orig, entries), |entries|, f);
    }
  }

  /** A completed run leaves every target equal to its preview and every other original file
      as it was, and besides these there are just the backups: no temporary file is left. */
  lemma CompletedRunInstalls(orig: Files, entries: seq<Entry>, f: Failure, p: Path)
    requires Applicable(orig, entries) && CostOf(entries) <= f.at
    ensures var files, previews := Forward(Start0(orig), entries, Previews(orig, entries), f).files, Previews(orig, entries);
      && (p in files <==> p in orig || exists i :: 0 <= i < |entries| && MadeBy(orig.Keys, entries, i, p))
      && (TargetBefore(entries, |entries|, p) ==> p in previews && p in files && files[p] == previews[p])
      && (p in orig && !TargetBefore(entries, |entries|, p) ==> p in files && files[p] == orig[p])
  {
    CompletesExactly(orig, entries, f);
    VerifiedTargets(orig, entries);
    NamesAfterExactly(orig.Keys, entries, |entries|, p);
  }

  /** Under the same condition as for rollback, a completed run has a backup of every changed
      file, and it holds the original. */
  lemma CompletedRunBackups(orig: Files, entries: seq<Entry>, f: Failure, i: nat)
    requires Applicable(orig, entries) && NamesApart(orig.Keys, entries) && RepeatsHarmless(orig, entries)
    requires CostOf(entries) <= f.at && i < |entries| && !entries[i].isNew
    ensures var run := Forward(Start0(orig), entries, Previews(orig, entries), f);
      && entries[i].target in orig && entries[i].target in run.backups && run.backups[entries[i].target] in run.files
      && run.files[run.backups[entries[i].target]] == orig[entries[i].target]
  {
    CompletesExactly(orig, entries, f);
    VerifiedTargets(orig, entries);
    var n := RunKept(orig, entries, f);
    var m := LastChange(entries, entries[i].target, i, |entries|);
    assert LatestBackup(orig, entries, |entries|, Forward(Start0(orig), entries, Previews(orig, entries), f), m);
  }

  lemma LastChange(entries: seq<Entry>, t: Path, i: nat, k: nat) returns (m: nat)
    requires i < k <= |entries| && !entries[i].isNew && entries[i].target == t
    ensures m < k && !entries[m].isNew && entries[m].target == t
    ensures forall l :: m < l < k && !entries[l].isNew ==> entries[l].target != t
  {
    m := i;
    for l := i + 1 to k
      invariant m < l && !entries[m].isNew && entries[m].target == t
      invariant forall j :: m < j < l && !entries[j].isNew ==> entries[j].target != t
    {
      if !entries[l].isNew && entries[l].target == t {
        m := l;
      }
    }
  }

  // ----- why the two conditions are needed -----

  /** When one file is changed by two entries and the wanted content differs from the
      original, a failure while writing the second time makes rollback keep the change:
      the second backup replaced the first. */
  lemma RollbackLosesRepeated(orig: Files, entries: seq<Entry>, i: nat, j: nat) returns (f: Failure)
    requires Applicable(orig, entries)
    requires i < j < |entries| && !entries[i].isNew && !entries[j].isNew && entries[i].target == entries[j].target
    requires entries[i].target in orig && entries[i].target in Previews(orig, entries)
    requires Previews(orig, entries)[entries[i].target] != orig[entries[i].target]
    ensures var run, t := Forward(Start0(orig), entries, Previews(orig, entries), f), entries[i].target;
      && run.failed && !Restored(orig, entries, Rollback(run))
      && t in Rollback(run) && Rollback(run)[t] == Previews(orig, entries)[t]
  {
    var previews, t := Previews(orig, entries), entries[i].target;
    f := Failure(CostOf(entries[..j]) + 1, None);
    var r := FailsAt(orig, entries, previews, j, f);
    SecondBackup(orig, r, t, previews, f);
    RollbackFacts(Write(BackUp(r, t, f), t, previews[t], f));
  }

  lemma SecondBackup(orig: Files, r: Run, t: Path, previews: Files, f: Failure)
    requires BackupShape(orig, r) && !r.failed && f == Failure(r.ops + 1, None)
    requires orig.Keys <= r.files.Keys && t in orig && t in previews && r.files[t] == previews[t]
    ensures var run := Write(BackUp(r, t, f), t, previews[t], f);
      && run.failed && !BackUp(r, t, f).failed && BackupShape(orig, run)
      && t in run.backups && run.files[run.backups[t]] == previews[t]
      && forall p :: p in run.order ==> p in run.backups && run.backups[p] in run.files && run.backups[p] !in run.order
  {
  }

  /** When a file to be created has an earlier entry's backup or temporary name, a failure
      of that entry leaves a file where the created one was to be. */
  lemma ClashLeavesFile(orig: Files, entries: seq<Entry>, i: nat, j: nat) returns (f: Failure)
    requires Applicable(orig, entries)
    requires i < j < |entries| && entries[j].isNew && ChosenAt(orig.Keys, entries, i, entries[j].target)
    ensures var run := Forward(Start0(orig), entries, Previews(orig, entries), f);
      run.failed && !Restored(orig, entries, Rollback(run))
  {
    var previews, p, e := Previews(orig, entries), entries[j].target, entries[i];
    VerifiedTargets(orig, entries);
    ChosenIsNew(orig.Keys, entries, i, p);
    var isTemp := p == TempAt(orig.Keys, entries, i);
    f := Failure(CostOf(entries[..i]) + if e.isNew || !isTemp then 1 else 2, None);
    var r := FailsAt(orig, entries, previews, i, f);
    var w := WriteEntry(r, e, previews, f);
    ClashLeft(orig, entries, previews, i, r, f, p);
    RollbackFacts(w);
  }

  /** What the failing entry leaves. */
  lemma ClashLeft(orig: Files, entries: seq<Entry>, previews: Files, i: nat, r: Run, f: Failure, p: Path)
    requires i < |entries| && Progress(orig, entries, previews, i, r)
    requires entries[i].target in previews && (!entries[i].isNew ==> entries[i].target in orig)
    requires ChosenAt(orig.Keys, entries, i, p) && p !in r.files
    requires f == Failure(r.ops + if entries[i].isNew || p != TempAt(orig.Keys, entries, i) then 1 else 2, None)
    ensures var w := WriteEntry(r, entries[i], previews, f);
      p in w.files && p !in w.applied && BackupShape(orig, w)
  {
    var e := entries[i];
    if e.isNew {
      TempLeft(orig, r, e.target, p, previews[e.target], f);
    } else {
      var name, b := BackupAt(orig.Keys, entries, i), BackUp(r, e.target, f);
      BackedUp(orig, r, e.target, name, f);
      assert b.files.Keys == NamesAfter(orig.Keys, entries, i + 1);
      if p == TempAt(orig.Keys, entries, i) {
        TempLeft(orig, b, e.target, p, previews[e.target], f);
      } else {
        BackupLeft(orig, b, e.target, p, previews[e.target], f);
      }
    }
  }

  lemma BackedUp(orig: Files, r: Run, t: Path, name: Path, f: Failure)
    requires BackupShape(orig, r) && !r.failed && r.ops < f.at && t in r.files && t in orig && name !in orig
    requires name == FreeName(r.files.Keys, BackupBase(t))
    ensures var b := BackUp(r, t, f);
      && !b.failed && b.ops == r.ops + 1 && b.applied == r.applied && b.files.Keys == r.files.Keys + {name}
      && BackupShape(orig, b)
  {
    CopyCases(r, t, name, f);
  }

  /** A failing replace leaves the temporary file. */
  lemma TempLeft(orig: Files, r: Run, t: Path, name: Path, lines: seq<Line>, f: Failure)
    requires BackupShape(orig, r) && name == FreeName(r.files.Keys, TempBase(t)) && f.at == r.ops + 1
    ensures var w := Write(r, t, lines, f); name in w.files && w.applied == r.applied && BackupShape(orig, w)
  {
    WriteCases(r, t, name, lines, f);
  }

  /** A failing write without debris leaves what was there. */
  lemma BackupLeft(orig: Files, r: Run, t: Path, name: Path, lines: seq<Line>, f: Failure)
    requires BackupShape(orig, r) && name in r.files && f == Failure(r.ops, None)
    ensures var w := Write(r, t, lines, f); name in w.files && w.applied == r.applied && BackupShape(orig, w)
  {
    WriteCases(r, t, FreeName(r.files.Keys, TempBase(t)), lines, f);
  }

  predicate NotChangedAgain(entries: seq<Entry>, i: nat, j: nat)
    requires i < j < |entries|
  {
    forall m :: i < m <= j && !entries[m].isNew ==> entries[m].target != entries[i].target
  }

  /** When a created file overwrites the backup of a file changed before it, the next
      failure makes rollback put the created content in place of the original. */
  lemma OverwrittenBackup(orig: Files, entries: seq<Entry>, i: nat, j: nat) returns (f: Failure)
    requires Applicable(orig, entries)
    requires i < j && j + 1 < |entries| && !entries[i].isNew && entries[j].isNew
    requires entries[j].target == BackupAt(orig.Keys, entries, i)
    requires NotChangedAgain(entries, i, j)
    ensures var run, previews := Forward(Start0(orig), entries, Previews(orig, entries), f), Previews(orig, entries);
      run.failed && entries[i].target in orig && entries[j].target in previews
      && LosesTo(run, entries[i].target, entries[j].target, previews)
  {
    VerifiedTargets(orig, entries);
    f := Failure(CostOf(entries[..j + 1]), None);
    var r := FailsFirst(orig, entries, Previews(orig, entries), j + 1, f);
    OverwrittenRestored(orig, entries, Previews(orig, entries), i, j, r);
  }

  /** Rollback leaves one file with what was wanted of another, which is gone. */
  ghost predicate LosesTo(run: Run, lost: Path, created: Path, previews: Files)
    requires created in previews
  {
    var back := Rollback(run);
    lost in back && back[lost] == previews[created] && created !in back
  }

  /** The state in which the first operation of entry `k` fails. */
  lemma FailsFirst(orig: Files, entries: seq<Entry>, previews: Files, k: nat, f: Failure) returns (r: Run)
    requires Applicable(orig, entries) && previews == Previews(orig, entries) && k < |entries|
    requires f == Failure(CostOf(entries[..k]), None)
    ensures Progress(orig, entries, previews, k, r)
    ensures Forward(Start0(orig), entries, previews, f) == r.(failed := true)
  {
    VerifiedTargets(orig, entries);
    r := FailsAt(orig, entries, previews, k, f);
    FirstOperationFails(r, entries[k], previews, f);
  }

  lemma OverwrittenRestored(orig: Files, entries: seq<Entry>, previews: Files, i: nat, j: nat, r: Run)
    requires i < j < |entries| && Progress(orig, entries, previews, j + 1, r) && NotChangedAgain(entries, i, j)
    requires !entries[i].isNew && entries[j].isNew && entries[j].target in previews && entries[j].target !in orig
    requires entries[j].target == BackupAt(orig.Keys, entries, i)
    ensures LosesTo(r.(failed := true), entries[i].target, entries[j].target, previews)
  {
    OverwrittenAt(orig, entries, previews, i, j, r);
    RollbackFacts(r.(failed := true));
  }

  lemma FirstOperationFails(r: Run, e: Entry, previews: Files, f: Failure)
    requires !r.failed && f == Failure(r.ops, None) && e.target in previews && (!e.isNew ==> e.target in r.files)
    ensures WriteEntry(r, e, previews, f) == r.(failed := true)
  {
  }

  lemma OverwrittenAt(orig: Files, entries: seq<Entry>, previews: Files, i: nat, j: nat, r: Run)
    requires i < j < |entries| && Progress(orig, entries, previews, j + 1, r)
    requires !entries[i].isNew && entries[j].isNew && entries[j].target in previews && entries[j].target !in orig
    requires entries[j].target == BackupAt(orig.Keys, entries, i)
    requires NotChangedAgain(entries, i, j)
    ensures entries[i].target in r.backups && r.backups[entries[i].target] == entries[j].target
    ensures entries[j].target in r.files && r.files[entries[j].target] == previews[entries[j].target]
    ensures entries[j].target in r.applied && entries[j].target !in r.backups
  {
    assert LatestBackup(orig, entries, j + 1, r, i);
  }

  function Adding(path: Path, line: Line): Entry {
    Entry(true, path, [Hunk(0, 0, 1, 1, [HunkLine(Add, line)])])
  }

  /** Three files, all different: `x` changes, and `x.bak` and `z` are created. If writing
      `z` fails, rollback puts the content of `x.bak` in `x`. */
  lemma OverwrittenExample() returns (f: Failure)
    ensures var orig := map["x" := ["a"]];
      var entries := [Entry(false, "x", [Hunk(1, 1, 1, 1, [HunkLine(Remove, "a"), HunkLine(Add, "b")])]), Adding("x.bak", "c"), Adding("z", "d")];
      var run := Forward(Start0(orig), entries, Previews(orig, entries), f);
      Applicable(orig, entries) && run.failed && "x" in Rollback(run) && Rollback(run)["x"] == ["c"]
  {
    var orig: Files := map["x" := ["a"]];
    var change := Hunk(1, 1, 1, 1, [HunkLine(Remove, "a"), HunkLine(Add, "b")]);
    var entries := [Entry(false, "x", [change]), Adding("x.bak", "c"), Adding("z", "d")];
    ExampleApplies(orig, change);
    assert entries[..3] == entries && entries[..2] == [entries[0], entries[1]];
    ExamplePreview(orig, entries);
    assert NamesAfter(orig.Keys, entries, 0) == {"x"};
    assert FreeAt({"x"}, "x.bak", "x.bak", 0);
    SomeFirstFree({"x"}, "x.bak");
    FirstFreeUnique({"x"}, "x.bak", "x.bak", FreeName({"x"}, "x.bak"));
    assert BackupAt(orig.Keys, entries, 0) == "x.bak" by {
      assert BackupBase("x") == "x.bak";
    }
    assert Applicable(orig, entries);
    assert NotChangedAgain(entries, 0, 1);
    f := OverwrittenBackup(orig, entries, 0, 1);
  }

  lemma ExampleApplies(orig: Files, change: Hunk)
    requires orig == map["x" := ["a"]] && change == Hunk(1, 1, 1, 1, [HunkLine(Remove, "a"), HunkLine(Add, "b")])
    ensures Wanted(orig, Entry(false, "x", [change])).Some?
    ensures Wanted(orig, Adding("x.bak", "c")) == Some(["c"]) && Wanted(orig, Adding("z", "d")).Some?
  {
    var lines := change.lines;
    assert lines[..1] == [HunkLine(Remove, "a")] && lines[..1][..0] == [];
    assert OldSide(lines) == ["a"] && NewSide(lines) == ["b"];
    assert [change][1..] == [];
    assert Preview(["a"], 1, []).Some?;
    assert MatchesAt(["a"], 0, ["a"]);
    assert [HunkLine(Add, "c")][..0] == [] && NewSide([HunkLine(Add, "c")]) == ["c"];
    assert AddedLines([Hunk(0, 0, 1, 1, [HunkLine(Add, "c")])]) == ["c"];
  }

  lemma ExamplePreview(orig: Files, entries: seq<Entry>)
    requires |entries| == 3 && Wanted(orig, entries[1]) == Some(["c"]) && entries[1].target != entries[2].target
    ensures entries[1].target in Previews(orig, entries) && Previews(orig, entries)[entries[1].target] == ["c"]
  {
    var two := entries[..2];
    assert two[1] == entries[1];
    assert entries[..|entries| - 1] == two;
  }

  /** Rollback restores everything after every possible failure exactly when each file
      changed by two entries ends with the content it started with and no file to be created has the
      backup or temporary name of an earlier entry. */
  lemma RollbackExact(orig: Files, entries: seq<Entry>)
    requires Applicable(orig, entries)
    ensures RepeatsHarmless(orig, entries) && NamesApart(orig.Keys, entries) <==>
      forall f :: RollsBackClean(orig, entries, f)
  {
    if !RepeatsHarmless(orig, entries) {
      var i, j :| 0 <= i < j < |entries| && !entries[i].isNew && !entries[j].isNew
        && entries[i].target == entries[j].target && entries[i].target in orig && entries[i].target in Previews(orig, entries)
        && Previews(orig, entries)[entries[i].target] != orig[entries[i].target];
      var f := RollbackLosesRepeated(orig, entries, i, j);
      assert !RollsBackClean(orig, entries, f);
    } else if !NamesApart(orig.Keys, entries) {
      var i, j :| 0 <= i < j < |entries| && entries[j].isNew && ChosenAt(orig.Keys, entries, i, entries[j].target);
      var f := ClashLeavesFile(orig, entries, i, j);
      assert !RollsBackClean(orig, entries, f);
    } else {
      forall f ensures RollsBackClean(orig, entries, f) {
        RollbackRestores(orig, entries, f);
      }
    }
  }

  ghost predicate RollsBackClean(orig: Files, entries: seq<Entry>, f: Failure) {
    var run := Forward(Start0(orig), entries, Previews(orig, entries), f);
    run.failed ==> Restored(orig, entries, Rollback(run))
  }

  /** Patches whose targets are pairwise distinct meet the condition. */
  lemma DistinctTargetsHarmless(orig: Files, entries: seq<Entry>)
    requires forall i, j :: 0 <= i < j < |entries| ==> entries[i].target != entries[j].target
    ensures RepeatsHarmless(orig, entries)
  {
  }
}
