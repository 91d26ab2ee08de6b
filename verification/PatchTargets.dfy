/** From the text of a patch to its effect: the two paths of each file are normalised and
    checked, one of them becomes the file the hunks apply to, and only then is anything
    read or written. The repository's root stays implicit: every target is below it. */
module PatchTargets {
  import opened Outcomes
  import opened Text
  import opened PatchHunks
  import opened PatchParse
  import opened PatchApply

  const NO_FILE := "/dev/null"

  /** Without the `a/` or `b/` of a git diff. */
  function Normalise(path: string): string {
    if path == NO_FILE then path
    else
      var p := Strip(path);
      if "a/" <= p || "b/" <= p then p[2..] else p
  }

  /** The components of a path; empty ones and `.` do not count. */
  function Parts(path: string): seq<string>
    decreases |path|
  {
    var n := IndexOf(path, '/');
    if n < |path| then Own(path[..n]) + Parts(path[n + 1..]) else Own(path)
  }

  /** What stands between two slashes, if it counts. */
  function Own(c: string): seq<string> {
    if c == "" || c == "." then [] else [c]
  }

  function Joined(parts: seq<string>): string {
    if parts == [] then ""
    else if |parts| == 1 then parts[0]
    else parts[0] + "/" + Joined(parts[1..])
  }

  predicate Component(c: string) {
    c != "" && c != "." && '/' !in c
  }

  predicate Components(parts: seq<string>) {
    forall i :: 0 <= i < |parts| ==> Component(parts[i])
  }

  lemma {:induction false} NoneBefore(s: string, c: char)
    ensures c !in s[..IndexOf(s, c)]
  {
    if s != [] && s[0] != c {
      NoneBefore(s[1..], c);
      assert s[..IndexOf(s, c)] == [s[0]] + s[1..][..IndexOf(s[1..], c)];
    }
  }

  lemma {:induction false} IndexOfFirst(a: string, c: char, b: string)
    requires c !in a
    ensures IndexOf(a, c) == |a|
    ensures IndexOf(a + [c] + b, c) == |a|
  {
    if a == [] {
      assert (a + [c] + b)[0] == c;
    } else {
      assert (a + [c] + b)[0] == a[0] && (a + [c] + b)[1..] == a[1..] + [c] + b;
      IndexOfFirst(a[1..], c, b);
    }
  }

  lemma {:induction false} PartsAreComponents(path: string)
    ensures Components(Parts(path))
    decreases |path|
  {
    var n := IndexOf(path, '/');
    NoneBefore(path, '/');
    if n < |path| {
      PartsAreComponents(path[n + 1..]);
    }
  }

  lemma PartsStep(c: string, rest: string)
    requires '/' !in c
    ensures Parts(c) == Own(c)
    ensures Parts(c + "/" + rest) == Own(c) + Parts(rest)
  {
    var path := c + "/" + rest;
    assert path == c + ['/'] + rest;
    IndexOfFirst(c, '/', rest);
    assert path[..|c|] == c && path[|c| + 1..] == rest;
  }

  /** Joining components and taking them apart again gives them back. */
  lemma {:induction false} PartsOfJoined(parts: seq<string>)
    requires Components(parts)
    ensures Parts(Joined(parts)) == parts
  {
    if parts == [] {
      PartsStep("", "");
    } else {
      PartsStep(parts[0], Joined(parts[1..]));
      if |parts| > 1 {
        PartsOfJoined(parts[1..]);
        assert parts == [parts[0]] + parts[1..];
      }
    }
  }

  datatype PathFault = AbsolutePath | Traversal | NoSide

  /** Relative, and nowhere going up. */
  predicate Inside(path: string) {
    !("/" <= path) && ".." !in Parts(path)
  }

  function Validate(path: string): Result<Path, PathFault> {
    if "/" <= path then Err(AbsolutePath)
    else if ".." in Parts(path) then Err(Traversal)
    else Ok(Joined(Parts(path)))
  }

  /** `target` is a clean relative path with the components of `path`. */
  ghost predicate Names(target: Path, path: string) {
    && Parts(target) == Parts(path) && target == Joined(Parts(target))
    && Components(Parts(target)) && ".." !in Parts(target)
  }

  /** Validation accepts exactly the paths that stay inside the repository, and what it
      returns names the same file without detours; two accepted paths get the same target
      exactly when they have the same components. */
  lemma ValidateExact(path: string, other: string)
    ensures Validate(path).Ok? <==> Inside(path)
    ensures Validate(path) == Err(AbsolutePath) <==> path != "" && path[0] == '/'
    ensures Validate(path) == Err(Traversal) <==> (path == "" || path[0] != '/') && ".." in Parts(path)
    ensures Inside(path) ==> Names(Validate(path).value, path)
    ensures Inside(path) && Inside(other) ==>
      (Validate(path).value == Validate(other).value <==> Parts(path) == Parts(other))
  {
    PartsAreComponents(path);
    PartsAreComponents(other);
    PartsOfJoined(Parts(path));
    PartsOfJoined(Parts(other));
  }

  predicate HasFile(path: string) {
    Normalise(path) != NO_FILE
  }

  /** Both sides that name a file stay inside the repository, and there is one. */
  predicate Resolvable(f: FilePatch) {
    && (HasFile(f.oldPath) ==> Inside(Normalise(f.oldPath)))
    && (HasFile(f.newPath) ==> Inside(Normalise(f.newPath)))
    && (HasFile(f.oldPath) || HasFile(f.newPath))
  }

  /** The entry has the hunks of the file patch and the target of its old side or, if that
      is no file, of its new side. It is new only if the old side is literally `/dev/null`. */
  ghost predicate Describes(e: Entry, f: FilePatch) {
    && (e.isNew <==> f.oldPath == NO_FILE)
    && e.hunks == f.hunks
    && Names(e.target, Normalise(if HasFile(f.oldPath) then f.oldPath else f.newPath))
  }

  /** Why a file patch is refused. */
  ghost predicate FaultIn(f: FilePatch, fault: PathFault) {
    match fault
    case NoSide => !HasFile(f.oldPath) && !HasFile(f.newPath)
    case _ => Refused(f.oldPath, fault) || Refused(f.newPath, fault)
  }

  predicate Refused(path: string, fault: PathFault) {
    HasFile(path) && Validate(Normalise(path)) == Err(fault)
  }

  /** The checks on one file patch: the old side, the new side, then that there is one. */
  function Resolve(f: FilePatch): Result<Entry, PathFault> {
    if HasFile(f.oldPath) && Validate(Normalise(f.oldPath)).Err? then Err(Validate(Normalise(f.oldPath)).error)
    else if HasFile(f.newPath) && Validate(Normalise(f.newPath)).Err? then Err(Validate(Normalise(f.newPath)).error)
    else if HasFile(f.oldPath) then Ok(Entry(f.oldPath == NO_FILE, Validate(Normalise(f.oldPath)).value, f.hunks))
    else if HasFile(f.newPath) then Ok(Entry(f.oldPath == NO_FILE, Validate(Normalise(f.newPath)).value, f.hunks))
    else Err(NoSide)
  }

  lemma ResolveExact(f: FilePatch)
    ensures Resolve(f).Ok? <==> Resolvable(f)
    ensures Resolve(f).Ok? ==> Describes(Resolve(f).value, f)
    ensures Resolve(f).Err? ==> FaultIn(f, Resolve(f).error)
  {
    ValidateExact(Normalise(f.oldPath), Normalise(f.newPath));
    ValidateExact(Normalise(f.newPath), Normalise(f.oldPath));
  }

  lemma SplitAtSlash(a: string) returns (head: string, tail: string)
    requires '/' in a
    ensures '/' !in head && a == head + "/" + tail
  {
    var n := IndexOf(a, '/');
    NoneBefore(a, '/');
    SlashFound(a);
    head, tail := a[..n], a[n + 1..];
  }

  lemma {:induction false} SlashFound(a: string)
    requires '/' in a
    ensures IndexOf(a, '/') < |a|
  {
    if a[0] != '/' {
      SlashFound(a[1..]);
    }
  }

  /** The components of two paths with a slash between them are those of the one and then
      those of the other; an empty path and `.` have none, and a component is its own. */
  lemma {:induction false} PartsAppend(a: string, b: string)
    ensures Parts(a + "/" + b) == Parts(a) + Parts(b)
    ensures a == "" || a == "." ==> Parts(a) == []
    ensures Component(a) ==> Parts(a) == [a]
    decreases |a|
  {
    if '/' !in a {
      PartsStep(a, b);
    } else {
      var head, tail := SplitAtSlash(a);
      PartsAppend(tail, b);
      AppendLater(head, tail, b);
    }
  }

  lemma AppendLater(head: string, tail: string, b: string)
    requires '/' !in head && Parts(tail + "/" + b) == Parts(tail) + Parts(b)
    ensures Parts(head + "/" + tail + "/" + b) == Parts(head + "/" + tail) + Parts(b)
  {
    Regrouped(head, tail, b);
    PartsStep(head, tail + "/" + b);
    PartsStep(head, tail);
    PartsGrouped(Own(head), Parts(tail), Parts(b));
  }

  lemma Regrouped(head: string, tail: string, b: string)
    ensures head + "/" + tail + "/" + b == head + "/" + (tail + "/" + b)
  {
  }

  lemma PartsGrouped(a: seq<string>, b: seq<string>, c: seq<string>)
    ensures a + (b + c) == (a + b) + c
  {
  }

  /** The `a/` and `b/` of a git diff are dropped and nothing else is. */
  lemma PrefixDropped(p: string)
    ensures Trimmed("a/" + p) ==> Normalise("a/" + p) == p
    ensures Trimmed("b/" + p) ==> Normalise("b/" + p) == p
    ensures Trimmed(p) && !("a/" <= p) && !("b/" <= p) ==> Normalise(p) == p
    ensures Normalise("/dev/null") == "/dev/null"
  {
    assert "/dev/null"[0] == '/' && ("a/" + p)[0] == 'a' && ("b/" + p)[0] == 'b';
    assert ("a/" + p)[2..] == p && ("b/" + p)[2..] == p;
    if Trimmed("a/" + p) {
      StripTrimmed("a/" + p);
    }
    if Trimmed("b/" + p) {
      StripTrimmed("b/" + p);
    }
    if Trimmed(p) {
      StripTrimmed(p);
    }
  }

  /** A file in a git diff is changed under its path without the prefixes, created under that
      of its new side, and changed under that of its old side when the new one is no file. */
  lemma GitTargets(p: string, hunks: seq<Hunk>)
    requires Inside(p) && p != NO_FILE && Trimmed("a/" + p) && Trimmed("b/" + p)
    ensures Resolve(FilePatch("a/" + p, "b/" + p, hunks)) == Ok(Entry(false, Joined(Parts(p)), hunks))
    ensures Resolve(FilePatch("/dev/null", "b/" + p, hunks)) == Ok(Entry(true, Joined(Parts(p)), hunks))
    ensures Resolve(FilePatch("a/" + p, "/dev/null", hunks)) == Ok(Entry(false, Joined(Parts(p)), hunks))
  {
    PrefixDropped(p);
    assert "/dev/null"[0] == '/' && ("a/" + p)[0] == 'a';
  }

  /** A path without these prefixes keeps all its components. */
  lemma PlainTargets(p: string, hunks: seq<Hunk>)
    requires Inside(p) && p != NO_FILE && Trimmed(p) && !("a/" <= p) && !("b/" <= p)
    ensures Resolve(FilePatch(p, p, hunks)) == Ok(Entry(false, Joined(Parts(p)), hunks))
    ensures Resolve(FilePatch("/dev/null", p, hunks)) == Ok(Entry(true, Joined(Parts(p)), hunks))
  {
    PrefixDropped(p);
  }

  /** The entry's target has the components of this side: of what follows an `a/` or `b/`,
      and of the whole path when it has neither. */
  predicate Targets(e: Entry, side: string) {
    && ("a/" <= side || "b/" <= side ==> Parts(e.target) == Parts(side[2..]))
    && (!("a/" <= side) && !("b/" <= side) ==> Parts(e.target) == Parts(side))
  }

  /** For trimmed paths, as parsed ones are: what the entry of a file patch is. The target is
      that of the old side unless that is no file. */
  ghost predicate EntrySpelledOut(e: Entry, f: FilePatch) {
    && e.hunks == f.hunks && (e.isNew <==> f.oldPath == "/dev/null")
    && (f.oldPath == "/dev/null" || f.oldPath == "a//dev/null" || f.oldPath == "b//dev/null" ==>
          (Trimmed(f.newPath) ==> Targets(e, f.newPath)))
    && (f.oldPath != "/dev/null" && f.oldPath != "a//dev/null" && f.oldPath != "b//dev/null" && Trimmed(f.oldPath) ==>
          Targets(e, f.oldPath))
  }

  lemma DescribedTarget(e: Entry, f: FilePatch)
    requires Describes(e, f)
    ensures EntrySpelledOut(e, f)
  {
    SideSpelledOut(f.oldPath);
    SideSpelledOut(f.newPath);
  }

  lemma SideSpelledOut(side: string)
    ensures Trimmed(side) && ("a/" <= side || "b/" <= side) ==> Normalise(side) == side[2..]
    ensures Trimmed(side) && !("a/" <= side) && !("b/" <= side) ==> Normalise(side) == side
    ensures side == "/dev/null" || side == "a//dev/null" || side == "b//dev/null" ==> !HasFile(side)
    ensures Trimmed(side) && !HasFile(side) ==> side == "/dev/null" || side == "a//dev/null" || side == "b//dev/null"
  {
    assert "/dev/null"[0] == '/' && "a/"[0] == 'a' && "b/"[0] == 'b';
    assert Trimmed("a//dev/null") && Trimmed("b//dev/null") && "a//dev/null"[2..] == "/dev/null" == "b//dev/null"[2..];
    StripTrimmed("a//dev/null");
    StripTrimmed("b//dev/null");
    if Trimmed(side) {
      StripTrimmed(side);
      if "a/" <= side || "b/" <= side {
        assert side == side[..2] + side[2..];
      }
    }
  }

  ghost predicate DescribesAll(entries: seq<Entry>, files: seq<FilePatch>) {
    |entries| == |files| && forall i :: 0 <= i < |files| ==> Describes(entries[i], files[i])
  }

  ghost predicate AllResolvable(files: seq<FilePatch>) {
    FirstResolvable(files, |files|)
  }

  /** The first `n` file patches can be resolved. */
  ghost predicate FirstResolvable(files: seq<FilePatch>, n: nat)
    requires n <= |files|
  {
    forall i :: 0 <= i < n ==> Resolvable(files[i])
  }

  /** Maps the items in order, up to the first that is refused. */
  method MapInOrder<A, B, E>(items: seq<A>, f: A -> Result<B, E>) returns (r: Result<seq<B>, E>)
    ensures r.Ok? ==> |r.value| == |items| && forall i :: 0 <= i < |items| ==> f(items[i]) == Ok(r.value[i])
    ensures r.Err? ==> exists i :: 0 <= i < |items| && (forall k :: 0 <= k < i ==> f(items[k]).Ok?) && f(items[i]) == Err(r.error)
  {
    var values: seq<B> := [];
    for i := 0 to |items|
      invariant |values| == i && forall k :: 0 <= k < i ==> f(items[k]) == Ok(values[k])
    {
      var one := f(items[i]);
      if one.Err? {
        return Err(one.error);
      }
      values := values + [one.value];
    }
    return Ok(values);
  }

  method ResolveAll(files: seq<FilePatch>) returns (r: Result<seq<Entry>, PathFault>)
    ensures r.Ok? <==> AllResolvable(files)
    ensures r.Ok? ==> DescribesAll(r.value, files)
    ensures r.Err? ==> exists i :: 0 <= i < |files| && FirstResolvable(files, i) && FaultIn(files[i], r.error)
  {
    r := MapInOrder(files, Resolve);
    if r.Ok? {
      forall i | 0 <= i < |files| ensures Describes(r.value[i], files[i]) && Resolvable(files[i]) {
        ResolveExact(files[i]);
      }
    } else {
      ghost var i: nat :| i < |files| && (forall k :: 0 <= k < i ==> Resolve(files[k]).Ok?) && Resolve(files[i]) == Err(r.error);
      RefusedAt(files, i, r.error);
    }
  }

  lemma RefusedAt(files: seq<FilePatch>, i: nat, fault: PathFault)
    requires i < |files| && (forall k :: 0 <= k < i ==> Resolve(files[k]).Ok?) && Resolve(files[i]) == Err(fault)
    ensures FirstResolvable(files, i) && FaultIn(files[i], fault) && !AllResolvable(files)
  {
    ResolveExact(files[i]);
    forall k | 0 <= k < i ensures Resolvable(files[k]) {
      ResolveExact(files[k]);
    }
  }

  /** A list of file patches has one list of entries. */
  lemma DescribedOnce(a: seq<Entry>, b: seq<Entry>, files: seq<FilePatch>)
    requires DescribesAll(a, files) && DescribesAll(b, files)
    ensures a == b
  {
    forall i | 0 <= i < |files| ensures a[i] == b[i] {
      assert Describes(a[i], files[i]) && Describes(b[i], files[i]);
    }
  }

  datatype Refusal = BadSyntax(error: SyntaxError) | BadPath(fault: PathFault)

  /** The whole of `apply` from the text on. A text that does not parse or that names a
      path outside the repository is refused before the disk is looked at; the rest is the
      effect of its entries. */
  method ApplyText(disk: Disk, lines: seq<string>, dryRun: bool, f: Failure)
    returns (r: Result<ApplyResult, Refusal>, ghost entries: seq<Entry>)
    requires disk.ops == 0
    modifies disk
    ensures r.Ok? <==> Parse(lines).Ok? && AllResolvable(Parse(lines).value)
    ensures r.Err? ==> disk.files == old(disk.files)
    ensures r.Err? ==>
      match r.error
      case BadSyntax(error) => Parse(lines) == Err(error)
      case BadPath(fault) => Parse(lines).Ok? && exists p :: p in Parse(lines).value && FaultIn(p, fault)
    ensures r.Ok? ==> DescribesAll(entries, Parse(lines).value)
    ensures r.Ok? ==> forall i :: 0 <= i < |entries| ==> EntrySpelledOut(entries[i], Parse(lines).value[i])
    ensures r.Ok? && (dryRun || !Applicable(old(disk.files), entries)) ==> disk.files == old(disk.files)
    ensures r.Ok? && dryRun ==> (r.value.success <==> Applicable(old(disk.files), entries))
    ensures r.Ok? && !dryRun && Applicable(old(disk.files), entries) ==>
      var run := Forward(Start0(old(disk.files)), entries, Previews(old(disk.files), entries), f);
      && (r.value.success <==> !run.failed)
      && disk.files == if run.failed then Rollback(run) else run.files
  {
    entries := [];
    var parsed := ParsePatch(lines);
    if parsed.Err? {
      return Err(BadSyntax(parsed.error)), entries;
    }
    var resolved := ResolveAll(parsed.value);
    if resolved.Err? {
      ghost var i :| 0 <= i < |parsed.value| && FirstResolvable(parsed.value, i) && FaultIn(parsed.value[i], resolved.error);
      assert parsed.value[i] in parsed.value;
      return Err(BadPath(resolved.error)), entries;
    }
    entries := resolved.value;
    forall i | 0 <= i < |entries| ensures EntrySpelledOut(entries[i], parsed.value[i]) {
      DescribedTarget(entries[i], parsed.value[i]);
    }
    var applied := disk.Apply(resolved.value, dryRun, f);
    return Ok(applied), entries;
  }
}
