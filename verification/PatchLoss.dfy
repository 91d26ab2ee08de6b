/** When a failed patch application can lose what a file held. Files that are merely left
    over do not count here: the question is whether every original file has its content. */
module PatchLoss {
  import opened PatchApply
  import opened PatchRollback

  /** Some original file is gone or holds something else after the failure is rolled back. */
  ghost predicate LosesContent(orig: Files, entries: seq<Entry>, f: Failure) {
    var run := Forward(Start0(orig), entries, Previews(orig, entries), f);
    run.failed && exists p :: p in orig && !(p in Rollback(run) && Rollback(run)[p] == orig[p])
  }

  /** The file created at `j` replaces the backup made at `i`, which is still in use, with
      something else than the original, and there is an entry left that can fail. */
  ghost predicate OverwritesAt(orig: Files, entries: seq<Entry>, i: nat, j: nat) {
    && i < j && j + 1 < |entries| && !entries[i].isNew && entries[j].isNew
    && entries[j].target == BackupAt(orig.Keys, entries, i) && NotChangedAgain(entries, i, j)
    && entries[i].target in orig && entries[j].target in Previews(orig, entries)
    && Previews(orig, entries)[entries[j].target] != orig[entries[i].target]
  }

  // ----- what the backups hold -----

  predicate ChangedIn(entries: seq<Entry>, k: nat, p: Path)
    requires k <= |entries|
  {
    exists i :: 0 <= i < k && !entries[i].isNew && entries[i].target == p
  }

  predicate LastBefore(entries: seq<Entry>, k: nat, i: nat)
    requires i < k <= |entries|
  {
    !entries[i].isNew && forall m :: i < m < k && !entries[m].isNew ==> entries[m].target != entries[i].target
  }

  ghost predicate ReplacedBy(orig: Files, entries: seq<Entry>, previews: Files, files: Files, i: nat, j: nat)
    requires i < j < |entries|
  {
    var name := BackupAt(orig.Keys, entries, i);
    entries[j].isNew && entries[j].target == name && name in files && name in previews && files[name] == previews[name]
  }

  /** The backup made at `i` holds the original content or that of a file created since. */
  ghost predicate HoldsAt(orig: Files, entries: seq<Entry>, previews: Files, k: nat, files: Files, i: nat)
    requires i < k <= |entries|
  {
    var name := BackupAt(orig.Keys, entries, i);
    && name in files && entries[i].target in orig
    && (files[name] == orig[entries[i].target] || exists j :: i < j < k && ReplacedBy(orig, entries, previews, files, i, j))
  }

  ghost predicate AllHeld(orig: Files, entries: seq<Entry>, previews: Files, k: nat, files: Files)
    requires k <= |entries|
  {
    forall i :: 0 <= i < k && LastBefore(entries, k, i) ==> HoldsAt(orig, entries, previews, k, files, i)
  }

  ghost predicate BackedUpChanges(orig: Files, entries: seq<Entry>, k: nat, r: Run)
    requires k <= |entries|
  {
    && (forall p :: p in r.backups ==> ChangedIn(entries, k, p))
    && (forall p :: p in r.applied && p in orig ==> p in r.backups)
  }

  /** The state after `k` entries when nothing has failed. */
  ghost predicate Held(orig: Files, entries: seq<Entry>, previews: Files, k: nat, r: Run) {
    && Progress(orig, entries, previews, k, r)
    && BackedUpChanges(orig, entries, k, r)
    && AllHeld(orig, entries, previews, k, r.files)
  }

  /** Before it is changed, a file holds its original content. */
  lemma StillOriginal(orig: Files, entries: seq<Entry>, previews: Files, k: nat, files: Files)
    requires k < |entries| && Installed(orig, entries, previews, k, files) && HarmlessIn(orig, entries, previews)
    requires Verified(orig, entries, previews) && !entries[k].isNew
    ensures entries[k].target in orig && entries[k].target in files && files[entries[k].target] == orig[entries[k].target]
  {
    var t := entries[k].target;
    if TargetBefore(entries, k, t) {
      var i :| 0 <= i < k && entries[i].target == t;
      assert !entries[i].isNew;
    }
  }

  /** Creating a file keeps what the backups hold, or replaces one. */
  lemma HeldAfterCreation(orig: Files, entries: seq<Entry>, previews: Files, k: nat, files: Files)
    requires k < |entries| && entries[k].isNew && entries[k].target in previews && AllHeld(orig, entries, previews, k, files)
    ensures AllHeld(orig, entries, previews, k + 1, files[entries[k].target := previews[entries[k].target]])
  {
    var t, next := entries[k].target, k + 1;
    var after := files[t := previews[t]];
    forall i | 0 <= i < next && LastBefore(entries, next, i) ensures HoldsAt(orig, entries, previews, next, after, i) {
      assert i < k && LastBefore(entries, k, i);
      HoldsAfterCreation(orig, entries, previews, k, files, i);
    }
  }

  lemma HoldsAfterCreation(orig: Files, entries: seq<Entry>, previews: Files, k: nat, files: Files, i: nat)
    requires i < k < |entries| && entries[k].isNew && entries[k].target in previews && HoldsAt(orig, entries, previews, k, files, i)
    ensures HoldsAt(orig, entries, previews, k + 1, files[entries[k].target := previews[entries[k].target]], i)
  {
    var t, name := entries[k].target, BackupAt(orig.Keys, entries, i);
    var after := files[t := previews[t]];
    if name == t {
      assert ReplacedBy(orig, entries, previews, after, i, k);
    } else if files[name] != orig[entries[i].target] {
      var j :| i < j < k && ReplacedBy(orig, entries, previews, files, i, j);
      assert ReplacedBy(orig, entries, previews, after, i, j);
    }
  }

  /** Changing a file adds its backup and leaves the others. */
  lemma HeldAfterChange(orig: Files, entries: seq<Entry>, previews: Files, k: nat, files: Files)
    requires k < |entries| && !entries[k].isNew && entries[k].target in previews && AllHeld(orig, entries, previews, k, files)
    requires entries[k].target in orig && entries[k].target in files && files[entries[k].target] == orig[entries[k].target]
    requires files.Keys == NamesAfter(orig.Keys, entries, k) && orig.Keys <= files.Keys
    ensures var name, t := BackupAt(orig.Keys, entries, k), entries[k].target;
      AllHeld(orig, entries, previews, k + 1, files[name := files[t]][t := previews[t]])
  {
    var name, t, next := BackupAt(orig.Keys, entries, k), entries[k].target, k + 1;
    var after := files[name := files[t]][t := previews[t]];
    FreeNameIsNew(files.Keys, BackupBase(t));
    assert name !in files;
    forall i | 0 <= i < next && LastBefore(entries, next, i) ensures HoldsAt(orig, entries, previews, next, after, i) {
      if i < k {
        assert LastBefore(entries, k, i) && HoldsAt(orig, entries, previews, k, files, i);
        BackupIsNew(orig.Keys, entries, i);
        HoldsAfterChange(orig, entries, previews, k, files, i, name, t);
      }
    }
  }

  lemma BackupIsNew(names: set<Path>, entries: seq<Entry>, i: nat)
    requires i < |entries|
    ensures BackupAt(names, entries, i) !in names
  {
    FreeNameIsNew(NamesAfter(names, entries, i), BackupBase(entries[i].target));
    if BackupAt(names, entries, i) in names {
      NamesGrow(names, entries, 0, i, BackupAt(names, entries, i));
    }
  }

  lemma HoldsAfterChange(orig: Files, entries: seq<Entry>, previews: Files, k: nat, files: Files, i: nat, name: Path, t: Path)
    requires i < k < |entries| && HoldsAt(orig, entries, previews, k, files, i)
    requires t in files && t in previews && name !in files && BackupAt(orig.Keys, entries, i) != t
    ensures HoldsAt(orig, entries, previews, k + 1, files[name := files[t]][t := previews[t]], i)
  {
    var backup, after := BackupAt(orig.Keys, entries, i), files[name := files[t]][t := previews[t]];
    if files[backup] != orig[entries[i].target] {
      var j :| i < j < k && ReplacedBy(orig, entries, previews, files, i, j);
      assert ReplacedBy(orig, entries, previews, after, i, j);
    }
  }

  /** The effect of an entry that does not fail. */
  lemma EntryDone(r: Run, e: Entry, previews: Files, f: Failure)
    requires !r.failed && !WriteEntry(r, e, previews, f).failed && (!e.isNew ==> e.target in r.files)
    ensures e.target in previews
    ensures var w, name := WriteEntry(r, e, previews, f), FreeName(r.files.Keys, BackupBase(e.target));
      && w.files == (if e.isNew then r.files else r.files[name := r.files[e.target]])[e.target := previews[e.target]]
      && w.backups == (if e.isNew then r.backups else r.backups[e.target := name])
      && w.applied == r.applied + [e.target]
  {
  }

  lemma HeldEntry(orig: Files, entries: seq<Entry>, previews: Files, k: nat, r: Run, f: Failure)
    requires k < |entries| && Held(orig, entries, previews, k, r)
    requires Verified(orig, entries, previews) && HarmlessIn(orig, entries, previews)
    requires !WriteEntry(r, entries[k], previews, f).failed
    ensures Held(orig, entries, previews, k + 1, WriteEntry(r, entries[k], previews, f))
  {
    ProgressEntry(orig, entries, previews, k, r, f);
    BackedUpEntry(orig, entries, previews, k, r, f);
    FilesEntry(orig, entries, previews, k, r, f);
  }

  lemma BackedUpEntry(orig: Files, entries: seq<Entry>, previews: Files, k: nat, r: Run, f: Failure)
    requires k < |entries| && BackedUpChanges(orig, entries, k, r) && Verified(orig, entries, previews)
    requires !r.failed && orig.Keys <= r.files.Keys && !WriteEntry(r, entries[k], previews, f).failed
    ensures BackedUpChanges(orig, entries, k + 1, WriteEntry(r, entries[k], previews, f))
  {
    EntryDone(r, entries[k], previews, f);
    BackedUpNext(orig, entries, k, r, WriteEntry(r, entries[k], previews, f));
  }

  lemma FilesEntry(orig: Files, entries: seq<Entry>, previews: Files, k: nat, r: Run, f: Failure)
    requires k < |entries| && Installed(orig, entries, previews, k, r.files) && AllHeld(orig, entries, previews, k, r.files)
    requires OnCourse(orig, entries, k, r) && !WriteEntry(r, entries[k], previews, f).failed
    requires Verified(orig, entries, previews) && HarmlessIn(orig, entries, previews)
    ensures AllHeld(orig, entries, previews, k + 1, WriteEntry(r, entries[k], previews, f).files)
  {
    HeldFiles(orig, entries, previews, k, r.files);
    EntryDone(r, entries[k], previews, f);
  }

  lemma HeldFiles(orig: Files, entries: seq<Entry>, previews: Files, k: nat, files: Files)
    requires k < |entries| && Installed(orig, entries, previews, k, files) && AllHeld(orig, entries, previews, k, files)
    requires files.Keys == NamesAfter(orig.Keys, entries, k)
    requires Verified(orig, entries, previews) && HarmlessIn(orig, entries, previews)
    ensures var e, name := entries[k], FreeName(files.Keys, BackupBase(entries[k].target));
      && e.target in previews && (e.isNew || e.target in files)
      && AllHeld(orig, entries, previews, k + 1,
           (if e.isNew then files else files[name := files[e.target]])[e.target := previews[e.target]])
  {
    if entries[k].isNew {
      HeldAfterCreation(orig, entries, previews, k, files);
    } else {
      StillOriginal(orig, entries, previews, k, files);
      HeldAfterChange(orig, entries, previews, k, files);
    }
  }

  lemma BackedUpNext(orig: Files, entries: seq<Entry>, k: nat, r: Run, w: Run)
    requires k < |entries| && BackedUpChanges(orig, entries, k, r) && (entries[k].isNew <==> entries[k].target !in orig)
    requires w.applied == r.applied + [entries[k].target]
    requires w.backups.Keys == r.backups.Keys + if entries[k].isNew then {} else {entries[k].target}
    ensures BackedUpChanges(orig, entries, k + 1, w)
  {
    forall p | p in w.backups ensures ChangedIn(entries, k + 1, p) {
      assert p in w.backups.Keys;
      if p in r.backups {
        assert ChangedIn(entries, k, p);
      } else {
        assert entries[k].target == p;
      }
    }
    forall p | p in w.applied && p in orig ensures p in w.backups {
      assert p in r.applied || p == entries[k].target;
      assert p in w.backups.Keys;
    }
  }

  /** Nothing has failed before entry `k`. */
  lemma {:induction false} HeldPrefix(orig: Files, entries: seq<Entry>, previews: Files, k: nat, f: Failure) returns (r: Run)
    requires Applicable(orig, entries) && previews == Previews(orig, entries) && HarmlessIn(orig, entries, previews)
    requires k <= |entries| && CostOf(entries[..k]) <= f.at
    ensures Held(orig, entries, previews, k, r)
    ensures Forward(Start0(orig), entries, previews, f) == Forward(r, entries[k..], previews, f)
  {
    if k == 0 {
      r := Start0(orig);
      assert entries[0..] == entries;
    } else {
      CostSnoc(entries, k - 1);
      var before := HeldPrefix(orig, entries, previews, k - 1, f);
      VerifiedTargets(orig, entries);
      ProgressEntry(orig, entries, previews, k - 1, before, f);
      HeldEntry(orig, entries, previews, k - 1, before, f);
      ForwardStep(before, entries, k - 1, previews, f);
      r := WriteEntry(before, entries[k - 1], previews, f);
    }
  }

  // ----- the failing entry -----

  /** A failing entry leaves every file as it was, and at most adds one backup. */
  lemma EntryFails(r: Run, e: Entry, previews: Files, f: Failure)
    requires !r.failed && WriteEntry(r, e, previews, f).failed && e.target in previews && (!e.isNew ==> e.target in r.files)
    ensures var w, name := WriteEntry(r, e, previews, f), FreeName(r.files.Keys, BackupBase(e.target));
      && w.applied == r.applied && (forall q :: q in r.files ==> q in w.files && w.files[q] == r.files[q])
      && (|| (w.backups == r.backups && w.order == r.order)
          || (&& !e.isNew && name !in r.files && name in w.files && w.files[name] == r.files[e.target]
              && w.backups == r.backups[e.target := name]
              && w.order == if e.target in r.backups then r.order else r.order + [e.target]))
  {
    FreeNameIsNew(r.files.Keys, BackupBase(e.target));
    var b := if e.isNew then r else BackUp(r, e.target, f);
    FreeNameIsNew(b.files.Keys, TempBase(e.target));
  }

  /** So after the rollback each original file has its content, or a backup was replaced. */
  lemma FailedEntry(orig: Files, entries: seq<Entry>, previews: Files, k: nat, r: Run, f: Failure, p: Path)
    requires k < |entries| && Held(orig, entries, previews, k, r) && p in orig
    requires Verified(orig, entries, previews) && HarmlessIn(orig, entries, previews) && previews == Previews(orig, entries)
    requires WriteEntry(r, entries[k], previews, f).failed
    ensures var back := Rollback(WriteEntry(r, entries[k], previews, f));
      (p in back && back[p] == orig[p]) || exists i, j :: OverwritesAt(orig, entries, i, j)
  {
    var e, w := entries[k], WriteEntry(r, entries[k], previews, f);
    EntryFails(r, e, previews, f);
    if !e.isNew {
      StillOriginal(orig, entries, previews, k, r.files);
    }
    FailedShape(orig, r, w, e);
    RolledBack(orig, w, p);
    if p in r.backups {
      BackupContent(orig, entries, previews, k, r, p);
    } else {
      Untouched(orig, entries, previews, k, r, p);
    }
  }

  /** Rollback gives a file what its backup holds, or leaves it. */
  lemma RolledBack(orig: Files, w: Run, p: Path)
    requires BackupShape(orig, w) && p in orig && p in w.files && (p in w.applied ==> p in w.backups)
    ensures p in w.backups ==> w.backups[p] in w.files
    ensures p in Rollback(w) && Rollback(w)[p] == w.files[if p in w.backups then w.backups[p] else p]
  {
    RollbackFacts(w);
  }

  lemma FailedShape(orig: Files, r: Run, w: Run, e: Entry)
    requires BackupShape(orig, r) && orig.Keys <= r.files.Keys && (!e.isNew ==> e.target in orig)
    requires forall q :: q in r.files ==> q in w.files
    requires
      || (w.backups == r.backups && w.order == r.order)
      || (exists name :: && !e.isNew && name !in r.files && name in w.files && w.backups == r.backups[e.target := name]
            && w.order == if e.target in r.backups then r.order else r.order + [e.target])
    ensures BackupShape(orig, w)
  {
  }

  /** What the backup of a file holds after `k` entries. */
  lemma BackupContent(orig: Files, entries: seq<Entry>, previews: Files, k: nat, r: Run, p: Path)
    requires k < |entries| && Held(orig, entries, previews, k, r) && p in r.backups && p in orig
    requires previews == Previews(orig, entries)
    ensures r.backups[p] in r.files
    ensures r.files[r.backups[p]] == orig[p] || exists i, j :: OverwritesAt(orig, entries, i, j)
  {
    assert ChangedIn(entries, k, p);
    var i := BackedUpAt(orig, entries, k, r, p);
    assert HoldsAt(orig, entries, previews, k, r.files, i);
    if r.files[r.backups[p]] != orig[p] {
      var j :| i < j < k && ReplacedBy(orig, entries, previews, r.files, i, j);
      assert OverwritesAt(orig, entries, i, j);
    }
  }

  /** The backup of a changed file is the one made at its last change. */
  lemma BackedUpAt(orig: Files, entries: seq<Entry>, k: nat, r: Run, p: Path) returns (i: nat)
    requires k <= |entries| && AllLatest(orig, entries, k, r) && ChangedIn(entries, k, p)
    ensures i < k && LastBefore(entries, k, i) && entries[i].target == p
    ensures p in r.backups && r.backups[p] == BackupAt(orig.Keys, entries, i)
  {
    var c :| 0 <= c < k && !entries[c].isNew && entries[c].target == p;
    i := LastChange(entries, p, c, k);
    assert LatestBackup(orig, entries, k, r, i);
  }

  /** A file without a backup has not been changed. */
  lemma Untouched(orig: Files, entries: seq<Entry>, previews: Files, k: nat, r: Run, p: Path)
    requires k < |entries| && Progress(orig, entries, previews, k, r) && p in orig && p !in r.backups
    requires Verified(orig, entries, previews)
    ensures p in r.files && r.files[p] == orig[p]
  {
    if TargetBefore(entries, k, p) {
      var i := BackedUpAt(orig, entries, k, r, p);
    }
  }

  /** Some failure makes a file lose its content exactly when two entries change a file to
      something else than it held, or a created file replaces a backup that is still in use
      with something else, and an entry is left that can fail. */
  lemma ContentLostExactly(orig: Files, entries: seq<Entry>)
    requires Applicable(orig, entries)
    ensures (exists f :: LosesContent(orig, entries, f)) <==>
      !RepeatsHarmless(orig, entries) || exists i, j :: OverwritesAt(orig, entries, i, j)
  {
    if !RepeatsHarmless(orig, entries) {
      var i, j :| 0 <= i < j < |entries| && !entries[i].isNew && !entries[j].isNew
        && entries[i].target == entries[j].target && entries[i].target in orig && entries[i].target in Previews(orig, entries)
        && Previews(orig, entries)[entries[i].target] != orig[entries[i].target];
      var f := RollbackLosesRepeated(orig, entries, i, j);
      assert LosesContent(orig, entries, f);
    } else if exists i, j :: OverwritesAt(orig, entries, i, j) {
      var i, j :| OverwritesAt(orig, entries, i, j);
      var f := OverwrittenBackup(orig, entries, i, j);
      assert LosesContent(orig, entries, f);
    } else {
      forall f ensures !LosesContent(orig, entries, f) {
        NothingLost(orig, entries, f);
      }
    }
  }

  lemma NothingLost(orig: Files, entries: seq<Entry>, f: Failure)
    requires Applicable(orig, entries) && RepeatsHarmless(orig, entries)
    requires !exists i, j :: OverwritesAt(orig, entries, i, j)
    ensures !LosesContent(orig, entries, f)
  {
    var previews := Previews(orig, entries);
    var run := Forward(Start0(orig), entries, previews, f);
    CompletesExactly(orig, entries, f);
    if run.failed {
      assert entries[..|entries|] == entries;
      var k := FailingEntry(entries, |entries|, f.at);
      var r := HeldPrefix(orig, entries, previews, k, f);
      VerifiedTargets(orig, entries);
      ProgressEntry(orig, entries, previews, k, r, f);
      ForwardStep(r, entries, k, previews, f);
      forall p | p in orig ensures p in Rollback(run) && Rollback(run)[p] == orig[p] {
        FailedEntry(orig, entries, previews, k, r, f, p);
      }
    }
  }
}
