/** Applying a whole patch to a file tree: dry run, pre-verification, backups, writes,
    and rollback after a failure at any copy or write. */
module PatchApply {
  import opened Outcomes
  import opened Text
  import opened PatchHunks

  type Path = string
  type Files = map<Path, seq<Line>>

  /** One file of a patch. A new file has the target of its `+++` side, a changed file
      the target of its `---` side or, failing that, of its `+++` side. */
  datatype Entry = Entry(isNew: bool, target: Path, hunks: seq<Hunk>)

  // ----- names -----

  /** `base`, then `base` with the numbers 1, 2, 3, … appended. */
  function Candidate(base: Path, n: nat): Path {
    if n == 0 then base else base + Decimal(n)
  }

  lemma CandidateInjective(base: Path, m: nat, n: nat)
    requires Candidate(base, m) == Candidate(base, n)
    ensures m == n
  {
    if m != 0 && n != 0 {
      assert (base + Decimal(m))[|base|..] == Decimal(m);
      assert (base + Decimal(n))[|base|..] == Decimal(n);
      DecimalInjective(m, n);
    } else {
      assert |Candidate(base, m)| == |Candidate(base, n)|;
    }
  }

  /** If the first `n` candidates all exist, there are at least `n` files. */
  lemma {:induction false} TakenCandidates(names: set<Path>, base: Path, n: nat)
    requires forall m {:trigger Candidate(base, m)} :: 0 <= m < n ==> Candidate(base, m) in names
    ensures n <= |names|
  {
    if n > 0 {
      var last := Candidate(base, n - 1);
      forall m {:trigger Candidate(base, m)} | 0 <= m < n - 1 ensures Candidate(base, m) in names - {last} {
        if Candidate(base, m) == last {
          CandidateInjective(base, m, n - 1);
        }
      }
      TakenCandidates(names - {last}, base, n - 1);
    }
  }

  /** `p` is the first candidate that does not exist. */
  ghost predicate FirstFree(names: set<Path>, base: Path, p: Path) {
    p !in names && exists n: nat :: FreeAt(names, base, p, n)
  }

  ghost predicate FreeAt(names: set<Path>, base: Path, p: Path, n: nat) {
    p == Candidate(base, n) && forall m {:trigger Candidate(base, m)} :: 0 <= m < n ==> Candidate(base, m) in names
  }

  lemma {:induction false} FirstFreeExists(names: set<Path>, base: Path, n: nat) returns (p: Path)
    requires forall m {:trigger Candidate(base, m)} :: 0 <= m < n ==> Candidate(base, m) in names
    ensures FirstFree(names, base, p)
    decreases |names| + 1 - n
  {
    TakenCandidates(names, base, n);
    p := Candidate(base, n);
    if p in names {
      p := FirstFreeExists(names, base, n + 1);
    } else {
      assert FreeAt(names, base, p, n);
    }
  }

  lemma SomeFirstFree(names: set<Path>, base: Path)
    ensures exists p :: FirstFree(names, base, p)
  {
    var p := FirstFreeExists(names, base, 0);
  }

  /** The first free candidate name. */
  ghost function FreeName(names: set<Path>, base: Path): Path {
    SomeFirstFree(names, base);
    var p :| FirstFree(names, base, p);
    p
  }

  lemma FreeNameIsNew(names: set<Path>, base: Path)
    ensures FreeName(names, base) !in names
  {
  }

  lemma FirstFreeUnique(names: set<Path>, base: Path, p: Path, q: Path)
    requires FirstFree(names, base, p) && FirstFree(names, base, q)
    ensures p == q
  {
    var m: nat :| FreeAt(names, base, p, m);
    var n: nat :| FreeAt(names, base, q, n);
  }

  /** The numbering loop behind backup and temporary names. */
  method GenerateName(names: set<Path>, base: Path) returns (p: Path)
    ensures p == FreeName(names, base)
  {
    p := base;
    var n: nat := 0;
    while p in names
      invariant p == Candidate(base, n)
      invariant forall m {:trigger Candidate(base, m)} :: 0 <= m < n ==> Candidate(base, m) in names
      decreases |names| + 1 - n
    {
      TakenCandidates(names, base, n);
      n := n + 1;
      p := base + Decimal(n);
    }
    assert FreeAt(names, base, p, n);
    SomeFirstFree(names, base);
    FirstFreeUnique(names, base, p, FreeName(names, base));
  }

  function BackupBase(target: Path): Path {
    target + ".bak"
  }

  function TempBase(target: Path): Path {
    target + ".tmp_patch"
  }

  /** A backup is the first free name among the target's with `.bak`, `.bak1`, `.bak2`, …
      appended, a temporary file the same with `.tmp_patch`. */
  lemma ChosenNamesExactly(names: set<Path>, target: Path, p: Path)
    ensures p == FreeName(names, BackupBase(target)) <==> FirstFree(names, target + ".bak", p)
    ensures p == FreeName(names, TempBase(target)) <==> FirstFree(names, target + ".tmp_patch", p)
  {
    ChosenExactly(names, target + ".bak", p);
    ChosenExactly(names, target + ".tmp_patch", p);
  }

  lemma ChosenExactly(names: set<Path>, base: Path, p: Path)
    ensures p == FreeName(names, base) <==> FirstFree(names, base, p)
  {
    SomeFirstFree(names, base);
    if FirstFree(names, base, p) {
      FirstFreeUnique(names, base, p, FreeName(names, base));
    }
  }

  // ----- verification -----

  predicate OnlyAdditions(hunks: seq<Hunk>) {
    forall i, j :: 0 <= i < |hunks| && 0 <= j < |hunks[i].lines| ==> hunks[i].lines[j].kind.Add?
  }

  function AddedLines(hunks: seq<Hunk>): seq<Line> {
    if hunks == [] then [] else NewSide(hunks[0].lines) + AddedLines(hunks[1..])
  }

  /** The content an entry asks for, if it applies to these files. */
  function Wanted(files: Files, e: Entry): Option<seq<Line>> {
    if e.isNew then
      if e.target !in files && OnlyAdditions(e.hunks) then Some(AddedLines(e.hunks)) else None
    else if e.target !in files then None
    else Preview(files[e.target], 0, e.hunks)
  }

  predicate Applicable(files: Files, entries: seq<Entry>) {
    forall i :: 0 <= i < |entries| ==> Wanted(files, entries[i]).Some?
  }

  /** The wanted contents by target; a later entry for the same target replaces an earlier one. */
  function Previews(files: Files, entries: seq<Entry>): Files {
    if entries == [] then map[]
    else
      var e, rest := entries[|entries| - 1], Previews(files, entries[..|entries| - 1]);
      if Wanted(files, e).Some? then rest[e.target := Wanted(files, e).value] else rest
  }

  /** A new file's content is that of its hunks in order, each giving its added lines. */
  lemma {:induction false} AddedLinesAppend(a: seq<Hunk>, b: seq<Hunk>)
    ensures AddedLines(a + b) == AddedLines(a) + AddedLines(b)
    ensures |a| == 1 ==> AddedLines(a) == NewSide(a[0].lines)
  {
    if a == [] {
      assert a + b == b;
    } else {
      assert (a + b)[0] == a[0] && (a + b)[1..] == a[1..] + b;
      AddedLinesAppend(a[1..], b);
    }
  }

  /** Entry `i` is the last that names this file. */
  predicate LastFor(entries: seq<Entry>, p: Path, i: nat) {
    i < |entries| && entries[i].target == p && forall j :: i < j < |entries| ==> entries[j].target != p
  }

  /** When all entries apply, exactly the targets have a wanted content. */
  lemma {:induction false} PreviewsAreTargets(files: Files, entries: seq<Entry>, p: Path)
    requires Applicable(files, entries)
    ensures p in Previews(files, entries) <==> exists i :: 0 <= i < |entries| && entries[i].target == p
  {
    if entries != [] {
      var n := |entries| - 1;
      PreviewsAreTargets(files, entries[..n], p);
      assert Wanted(files, entries[n]).Some?;
      if exists i :: 0 <= i < |entries| && entries[i].target == p {
        var i :| 0 <= i < |entries| && entries[i].target == p;
        assert i < n ==> entries[..n][i].target == p;
      }
      if exists i :: 0 <= i < n && entries[..n][i].target == p {
        var i :| 0 <= i < n && entries[..n][i].target == p;
        assert entries[i].target == p;
      }
    }
  }

  /** It is what the last entry for the file makes of the file as it was. */
  lemma {:induction false} PreviewIsLast(files: Files, entries: seq<Entry>, p: Path, i: nat)
    requires Applicable(files, entries) && LastFor(entries, p, i)
    ensures p in Previews(files, entries) && Wanted(files, entries[i]) == Some(Previews(files, entries)[p])
  {
    var n := |entries| - 1;
    assert Wanted(files, entries[n]).Some?;
    if i < n {
      PreviewIsLast(files, entries[..n], p, i);
      assert entries[n].target != p;
    }
  }

  method BuildNewFileLines(hunks: seq<Hunk>) returns (ok: bool, lines: seq<Line>)
    ensures ok <==> OnlyAdditions(hunks)
    ensures ok ==> lines == AddedLines(hunks)
  {
    lines := [];
    assert hunks[0..] == hunks;
    for i := 0 to |hunks|
      invariant forall a, b :: 0 <= a < i && 0 <= b < |hunks[a].lines| ==> hunks[a].lines[b].kind.Add?
      invariant AddedLines(hunks) == lines + AddedLines(hunks[i..])
    {
      var added;
      ok, added := HunkAdditions(hunks[i].lines);
      if !ok {
        return false, [];
      }
      lines := lines + added;
      assert hunks[i..][0] == hunks[i] && hunks[i..][1..] == hunks[i + 1..];
    }
    return true, lines;
  }

  method HunkAdditions(lines: seq<HunkLine>) returns (ok: bool, added: seq<Line>)
    ensures ok <==> forall b :: 0 <= b < |lines| ==> lines[b].kind.Add?
    ensures ok ==> added == NewSide(lines)
  {
    added := [];
    for j := 0 to |lines|
      invariant forall b :: 0 <= b < j ==> lines[b].kind.Add?
      invariant added == NewSide(lines[..j])
    {
      if !lines[j].kind.Add? {
        return false, [];
      }
      SidesSnoc(lines, j);
      added := added + [lines[j].text];
    }
    assert lines[..|lines|] == lines;
    ok := true;
  }

  method CheckAdditions(hunks: seq<Hunk>) returns (ok: bool)
    ensures ok <==> OnlyAdditions(hunks)
  {
    for i := 0 to |hunks|
      invariant forall a, b :: 0 <= a < i && 0 <= b < |hunks[a].lines| ==> hunks[a].lines[b].kind.Add?
    {
      for j := 0 to |hunks[i].lines|
        invariant forall b :: 0 <= b < j ==> hunks[i].lines[b].kind.Add?
      {
        if !hunks[i].lines[j].kind.Add? {
          return false;
        }
      }
    }
    return true;
  }

  /** The dry run's check of every entry; it builds no content for new files. */
  method VerifyOnly(files: Files, entries: seq<Entry>) returns (ok: bool)
    ensures ok <==> Applicable(files, entries)
  {
    for i := 0 to |entries|
      invariant forall k :: 0 <= k < i ==> Wanted(files, entries[k]).Some?
    {
      var e := entries[i];
      if e.isNew {
        if e.target in files {
          return false;
        }
        ok := CheckAdditions(e.hunks);
        if !ok {
          return;
        }
      } else {
        if e.target !in files {
          return false;
        }
        var r := ApplyHunksPreview(files[e.target], e.hunks);
        if r.Err? {
          return false;
        }
      }
    }
    return true;
  }

  /** The real run's pre-verification, which keeps the contents to write. */
  method PreVerify(files: Files, entries: seq<Entry>) returns (ok: bool, previews: Files)
    ensures ok <==> Applicable(files, entries)
    ensures ok ==> previews == Previews(files, entries)
  {
    previews := map[];
    for i := 0 to |entries|
      invariant forall k :: 0 <= k < i ==> Wanted(files, entries[k]).Some?
      invariant previews == Previews(files, entries[..i])
    {
      var wanted := PreVerifyOne(files, entries[i]);
      if wanted.None? {
        return false, previews;
      }
      assert entries[..i + 1][..i] == entries[..i];
      previews := previews[entries[i].target := wanted.value];
    }
    assert entries[..|entries|] == entries;
    ok := true;
  }

  /** One entry: it is there or not as it should be, and its hunks apply. */
  method PreVerifyOne(files: Files, e: Entry) returns (wanted: Option<seq<Line>>)
    ensures wanted == Wanted(files, e)
  {
    if e.isNew {
      if e.target in files {
        return None;
      }
      var ok, lines := BuildNewFileLines(e.hunks);
      return if ok then Some(lines) else None;
    }
    if e.target !in files {
      return None;
    }
    var r := ApplyHunksPreview(files[e.target], e.hunks);
    return if r.Ok? then Some(r.value) else None;
  }

  // ----- the write stage as a function -----

  /** The one injected failure: which copy, write or replace fails, counted from zero, and
      what a failing copy or write leaves in its destination. */
  datatype Failure = Failure(at: nat, debris: Option<seq<Line>>)

  /** Progress of the write stage. `order` lists the keys of `backups` by first insertion. */
  datatype Run = Run(files: Files, backups: map<Path, Path>, order: seq<Path>, applied: seq<Path>, ops: nat, failed: bool)

  function Start0(files: Files): Run {
    Run(files, map[], [], [], 0, false)
  }

  function Leave(files: Files, p: Path, debris: Option<seq<Line>>): Files {
    if debris.Some? then files[p := debris.value] else files
  }

  ghost function BackUp(r: Run, target: Path, f: Failure): Run {
    if target !in r.files then r.(failed := true)
    else
      var b := FreeName(r.files.Keys, BackupBase(target));
      if r.ops == f.at then r.(files := Leave(r.files, b, f.debris), failed := true)
      else r.(files := r.files[b := r.files[target]],
              backups := r.backups[target := b],
              order := if target in r.backups then r.order else r.order + [target],
              ops := r.ops + 1)
  }

  /** Writes a temporary file and moves it over the target. */
  ghost function Write(r: Run, target: Path, lines: seq<Line>, f: Failure): Run {
    var t := FreeName(r.files.Keys, TempBase(target));
    if r.ops == f.at then r.(files := Leave(r.files, t, f.debris), failed := true)
    else if r.ops + 1 == f.at then r.(files := r.files[t := lines], ops := r.ops + 1, failed := true)
    else r.(files := r.files[target := lines], applied := r.applied + [target], ops := r.ops + 2)
  }

  ghost function WriteEntry(r: Run, e: Entry, previews: Files, f: Failure): Run {
    if e.target !in previews then r.(failed := true)
    else
      var b := if e.isNew then r else BackUp(r, e.target, f);
      if b.failed then b else Write(b, e.target, previews[e.target], f)
  }

  ghost function Forward(r: Run, entries: seq<Entry>, previews: Files, f: Failure): Run
    decreases |entries|
  {
    if r.failed || entries == [] then r
    else Forward(WriteEntry(r, entries[0], previews, f), entries[1..], previews, f)
  }

  function RestoreOne(files: Files, backups: map<Path, Path>, t: Path): Files {
    if t in backups && backups[t] in files then files[t := files[backups[t]]] else files
  }

  function RestoreAll(files: Files, backups: map<Path, Path>, order: seq<Path>): Files {
    if order == [] then files
    else RestoreOne(RestoreAll(files, backups, order[..|order| - 1]), backups, order[|order| - 1])
  }

  function RemoveCreated(files: Files, backups: map<Path, Path>, applied: seq<Path>): Files {
    if applied == [] then files
    else
      var rest, last := RemoveCreated(files, backups, applied[..|applied| - 1]), applied[|applied| - 1];
      if last in backups then rest else rest - {last}
  }

  /** The files after rollback, if rollback's own restores and removals succeed. */
  function Rollback(r: Run): Files {
    RemoveCreated(RestoreAll(r.files, r.backups, r.order), r.backups, r.applied)
  }

  datatype ApplyResult = ApplyResult(success: bool, appliedFiles: seq<Path>, backups: map<Path, Path>)

  class Disk {
    var files: Files
    var ops: nat

    constructor (files: Files)
      ensures this.files == files && ops == 0
    {
      this.files, ops := files, 0;
    }

    method Copy(src: Path, dst: Path, f: Failure) returns (ok: bool)
      requires src in files
      modifies this
      ensures ok <==> old(ops) != f.at
      ensures ok ==> files == old(files)[dst := old(files)[src]] && ops == old(ops) + 1
      ensures !ok ==> files == Leave(old(files), dst, f.debris) && ops == old(ops)
    {
      ok := ops != f.at;
      if ok {
        files, ops := files[dst := files[src]], ops + 1;
      } else {
        files := Leave(files, dst, f.debris);
      }
    }

    method WriteText(dst: Path, lines: seq<Line>, f: Failure) returns (ok: bool)
      modifies this
      ensures ok <==> old(ops) != f.at
      ensures ok ==> files == old(files)[dst := lines] && ops == old(ops) + 1
      ensures !ok ==> files == Leave(old(files), dst, f.debris) && ops == old(ops)
    {
      ok := ops != f.at;
      if ok {
        files, ops := files[dst := lines], ops + 1;
      } else {
        files := Leave(files, dst, f.debris);
      }
    }

    method Replace(src: Path, dst: Path, f: Failure) returns (ok: bool)
      requires src in files && src != dst
      modifies this
      ensures ok <==> old(ops) != f.at
      ensures ok ==> files == (old(files) - {src})[dst := old(files)[src]] && ops == old(ops) + 1
      ensures !ok ==> files == old(files) && ops == old(ops)
    {
      ok := ops != f.at;
      if ok {
        files, ops := (files - {src})[dst := files[src]], ops + 1;
      }
    }

    method WriteAtomic(target: Path, lines: seq<Line>, f: Failure, ghost r: Run) returns (ok: bool)
      requires r.files == files && r.ops == ops && !r.failed
      modifies this
      ensures ok <==> !Write(r, target, lines, f).failed
      ensures files == Write(r, target, lines, f).files && ops == Write(r, target, lines, f).ops
    {
      var tmp := GenerateName(files.Keys, TempBase(target));
      TempIsNotTarget(files.Keys, target);
      ok := WriteText(tmp, lines, f);
      if ok {
        ok := Replace(tmp, target, f);
        assert files[tmp := lines] - {tmp} == files - {tmp};
      }
    }

    method RestoreBackups(backups: map<Path, Path>, order: seq<Path>)
      modifies this
      ensures files == RestoreAll(old(files), backups, order)
    {
      for i := 0 to |order|
        invariant files == RestoreAll(old(files), backups, order[..i])
      {
        assert order[..i + 1][..i] == order[..i];
        var tgt := order[i];
        if tgt in backups && backups[tgt] in files {
          files := files[tgt := files[backups[tgt]]];
        }
      }
      assert order[..|order|] == order;
    }

    method UnlinkCreated(backups: map<Path, Path>, applied: seq<Path>)
      modifies this
      ensures files == RemoveCreated(old(files), backups, applied)
    {
      for i := 0 to |applied|
        invariant files == RemoveCreated(old(files), backups, applied[..i])
      {
        assert applied[..i + 1][..i] == applied[..i];
        if applied[i] !in backups {
          files := files - {applied[i]};
        }
      }
      assert applied[..|applied|] == applied;
    }

    /** The whole of `apply`: a dry run changes nothing; a real run that verifies either
        completes its write stage or rolls back what the stage did. */
    method Apply(entries: seq<Entry>, dryRun: bool, f: Failure) returns (r: ApplyResult)
      requires ops == 0
      modifies this
      ensures dryRun || !Applicable(old(files), entries) ==>
        files == old(files) && r.appliedFiles == [] && r.backups == map[]
      ensures dryRun ==> (r.success <==> Applicable(old(files), entries))
      ensures !dryRun ==>
        var run := Forward(Start0(old(files)), entries, Previews(old(files), entries), f);
        && (r.success <==> Applicable(old(files), entries) && !run.failed)
        && (Applicable(old(files), entries) ==> files == if run.failed then Rollback(run) else run.files)
        && (Applicable(old(files), entries) ==> r.appliedFiles == run.applied && r.backups == run.backups)
    {
      if dryRun {
        var fine := VerifyOnly(files, entries);
        return ApplyResult(fine, [], map[]);
      }
      var verified, previews := PreVerify(files, entries);
      if !verified {
        return ApplyResult(false, [], map[]);
      }
      var run := WriteAll(entries, previews, f);
      if run.failed {
        RestoreBackups(run.backups, run.order);
        UnlinkCreated(run.backups, run.applied);
      }
      return ApplyResult(!run.failed, run.applied, run.backups);
    }

    /** The write stage; `run.files` is the state of the disk when it ends. */
    method WriteAll(entries: seq<Entry>, previews: Files, f: Failure) returns (run: Run)
      requires ops == 0
      modifies this
      ensures run == Forward(Start0(old(files)), entries, previews, f)
      ensures files == run.files
    {
      run := Start0(files);
      assert entries[0..] == entries;
      for i := 0 to |entries|
        invariant files == run.files && ops == run.ops && !run.failed
        invariant Forward(Start0(old(files)), entries, previews, f) == Forward(run, entries[i..], previews, f)
      {
        assert entries[i..][0] == entries[i] && entries[i..][1..] == entries[i + 1..];
        run := WriteOne(run, entries[i], previews, f);
        if run.failed {
          return;
        }
      }
    }

    method WriteOne(run0: Run, e: Entry, previews: Files, f: Failure) returns (run: Run)
      requires files == run0.files && ops == run0.ops && !run0.failed
      modifies this
      ensures run == WriteEntry(run0, e, previews, f)
      ensures files == run.files && (!run.failed ==> ops == run.ops)
    {
      run := run0;
      if e.target !in previews {
        return run.(failed := true);
      }
      if !e.isNew {
        run := BackUpOne(run, e.target, f);
        if run.failed {
          return;
        }
      }
      var ok := WriteAtomic(e.target, previews[e.target], f, run);
      if ok {
        run := run.(files := files, applied := run.applied + [e.target], ops := ops);
      } else {
        run := run.(files := files, ops := ops, failed := true);
      }
    }

    method BackUpOne(run0: Run, target: Path, f: Failure) returns (run: Run)
      requires files == run0.files && ops == run0.ops && !run0.failed
      modifies this
      ensures run == BackUp(run0, target, f)
      ensures files == run.files && ops == run.ops
    {
      run := run0;
      var backupPath := GenerateName(files.Keys, BackupBase(target));
      if target !in files {
        return run.(failed := true);
      }
      var ok := Copy(target, backupPath, f);
      if !ok {
        return run.(files := files, failed := true);
      }
      run := run.(files := files,
                  backups := run.backups[target := backupPath],
                  order := if target in run.backups then run.order else run.order + [target],
                  ops := ops);
    }
  }

  lemma TempIsNotTarget(names: set<Path>, target: Path)
    ensures FreeName(names, TempBase(target)) != target
    ensures FreeName(names, TempBase(target)) !in names
  {
    var t := FreeName(names, TempBase(target));
    SomeFirstFree(names, TempBase(target));
    var n: nat :| FreeAt(names, TempBase(target), t, n);
    assert |Candidate(TempBase(target), n)| > |target|;
  }
}
