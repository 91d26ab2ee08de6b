/** Applying the hunks of a unified diff to the lines of one file. */
module PatchHunks {
  import opened Outcomes

  type Line = string

  datatype Kind = Context | Add | Remove

  datatype HunkLine = HunkLine(kind: Kind, text: Line)

  datatype Hunk = Hunk(oldStart: int, oldCount: int, newStart: int, newCount: int, lines: seq<HunkLine>)

  datatype Fault =
    | OverlappingHunks
    | StartBeyondEnd
    | ContextMismatch
    | RemovalMismatch
    | OldCountMismatch
    | NewCountMismatch

  /** The lines a hunk expects to find. */
  function OldSide(lines: seq<HunkLine>): seq<Line> {
    if lines == [] then []
    else
      var l := lines[|lines| - 1];
      OldSide(lines[..|lines| - 1]) + if l.kind.Add? then [] else [l.text]
  }

  /** The lines a hunk leaves behind. */
  function NewSide(lines: seq<HunkLine>): seq<Line> {
    if lines == [] then []
    else
      var l := lines[|lines| - 1];
      NewSide(lines[..|lines| - 1]) + if l.kind.Remove? then [] else [l.text]
  }

  /** Where the engine places a hunk, counted from zero. */
  function Start(h: Hunk): nat {
    if h.oldStart - 1 > 0 then h.oldStart - 1 else 0
  }

  /** A zero count is taken as not given. */
  predicate CountsAgree(h: Hunk) {
    && (h.oldCount != 0 ==> h.oldCount == |OldSide(h.lines)|)
    && (h.newCount != 0 ==> h.newCount == |NewSide(h.lines)|)
  }

  predicate MatchesAt(original: seq<Line>, at: nat, side: seq<Line>) {
    at + |side| <= |original| && original[at..at + |side|] == side
  }

  function End(h: Hunk): nat {
    Start(h) + |OldSide(h.lines)|
  }

  predicate FitsAt(original: seq<Line>, from: nat, h: Hunk) {
    from <= Start(h) && MatchesAt(original, Start(h), OldSide(h.lines)) && CountsAgree(h)
  }

  /** The file after the hunks, from line `from` on, or nothing if some hunk does not fit. */
  function Preview(original: seq<Line>, from: nat, hunks: seq<Hunk>): Option<seq<Line>>
    requires from <= |original|
    decreases |hunks|
  {
    if hunks == [] then Some(original[from..])
    else if !FitsAt(original, from, hunks[0]) then None
    else
      var rest := Preview(original, End(hunks[0]), hunks[1..]);
      if rest.None? then None
      else Some(original[from..Start(hunks[0])] + NewSide(hunks[0].lines) + rest.value)
  }

  /** What is wrong with a hunk that does not fit: its place, then the first line that
      does not match, then its counts. */
  ghost predicate FaultOf(original: seq<Line>, from: nat, h: Hunk, fault: Fault) {
    if Start(h) < from then fault == OverlappingHunks
    else if Start(h) > |original| then fault == StartBeyondEnd
    else if !MatchesAt(original, Start(h), OldSide(h.lines)) then
      exists k ::
        && 0 <= k < |h.lines| && FirstMismatch(original, Start(h), h.lines, k)
        && fault == if h.lines[k].kind.Context? then ContextMismatch else RemovalMismatch
    else if h.oldCount != 0 && h.oldCount != |OldSide(h.lines)| then fault == OldCountMismatch
    else fault == NewCountMismatch
  }

  /** The old side matches up to line `k` of the hunk and fails there. */
  ghost predicate FirstMismatch(original: seq<Line>, at: nat, lines: seq<HunkLine>, k: nat)
    requires k < |lines|
  {
    && MatchesAt(original, at, OldSide(lines[..k]))
    && !MatchesAt(original, at, OldSide(lines[..k + 1]))
  }

  lemma SidesSnoc(lines: seq<HunkLine>, k: nat)
    requires k < |lines|
    ensures OldSide(lines[..k + 1]) == OldSide(lines[..k]) + if lines[k].kind.Add? then [] else [lines[k].text]
    ensures NewSide(lines[..k + 1]) == NewSide(lines[..k]) + if lines[k].kind.Remove? then [] else [lines[k].text]
  {
    assert lines[..k + 1][..k] == lines[..k];
  }

  lemma MatchesPrefix(original: seq<Line>, at: nat, side: seq<Line>, n: nat)
    requires MatchesAt(original, at, side) && n <= |side|
    ensures MatchesAt(original, at, side[..n])
  {
    assert original[at..at + n] == original[at..at + |side|][..n];
  }

  lemma {:induction false} OldSidePrefix(lines: seq<HunkLine>, k: nat)
    requires k <= |lines|
    ensures OldSide(lines[..k]) <= OldSide(lines)
    decreases |lines| - k
  {
    if k < |lines| {
      OldSidePrefix(lines, k + 1);
      SidesSnoc(lines, k);
    } else {
      assert lines[..k] == lines;
    }
  }

  /** Walks one hunk's lines over the original from `start`. */
  method WalkHunk(original: seq<Line>, start: nat, lines: seq<HunkLine>)
    returns (fault: Option<Fault>, produced: seq<Line>, cursor: nat)
    requires start <= |original|
    ensures fault.None? <==> MatchesAt(original, start, OldSide(lines))
    ensures fault.None? ==> produced == NewSide(lines) && cursor == start + |OldSide(lines)|
    ensures fault.Some? ==> exists k ::
      && 0 <= k < |lines| && FirstMismatch(original, start, lines, k)
      && fault.value == if lines[k].kind.Context? then ContextMismatch else RemovalMismatch
  {
    produced, cursor := [], start;
    for k := 0 to |lines|
      invariant MatchesAt(original, start, OldSide(lines[..k]))
      invariant produced == NewSide(lines[..k]) && cursor == start + |OldSide(lines[..k])|
    {
      var hl := lines[k];
      SidesSnoc(lines, k);
      if !hl.kind.Add? && (cursor >= |original| || original[cursor] != hl.text) {
        Mismatched(original, start, lines, k);
        return Some(if hl.kind.Context? then ContextMismatch else RemovalMismatch), produced, cursor;
      }
      if !hl.kind.Add? {
        assert original[start..cursor + 1] == original[start..cursor] + [hl.text];
        cursor := cursor + 1;
      }
      if !hl.kind.Remove? {
        produced := produced + [hl.text];
      }
    }
    assert lines[..|lines|] == lines;
    fault := None;
  }

  lemma Mismatched(original: seq<Line>, start: nat, lines: seq<HunkLine>, k: nat)
    requires k < |lines| && !lines[k].kind.Add?
    requires MatchesAt(original, start, OldSide(lines[..k]))
    requires var cursor := start + |OldSide(lines[..k])|; cursor >= |original| || original[cursor] != lines[k].text
    ensures FirstMismatch(original, start, lines, k)
    ensures !MatchesAt(original, start, OldSide(lines))
  {
    SidesSnoc(lines, k);
    var longer := OldSide(lines[..k + 1]);
    LastDiffers(original, start, OldSide(lines[..k]), lines[k].text);
    if MatchesAt(original, start, OldSide(lines)) {
      OldSidePrefix(lines, k + 1);
      MatchesPrefix(original, start, OldSide(lines), |longer|);
    }
  }

  lemma LastDiffers(original: seq<Line>, start: nat, side: seq<Line>, text: Line)
    requires start + |side| >= |original| || original[start + |side|] != text
    ensures !MatchesAt(original, start, side + [text])
  {
    var end := start + |side| + 1;
    if end <= |original| {
      assert original[start..end][|side|] == original[start + |side|];
      assert (side + [text])[|side|] == text;
    }
  }

  /** `fault` is what is wrong with the first hunk that does not fit. */
  ghost predicate FirstFault(original: seq<Line>, from: nat, hunks: seq<Hunk>, fault: Fault)
    decreases |hunks|
  {
    && hunks != []
    && if FitsAt(original, from, hunks[0]) then FirstFault(original, End(hunks[0]), hunks[1..], fault)
       else FaultOf(original, from, hunks[0], fault)
  }

  /** After `k` hunks the output so far and the position in the original decide the rest. */
  ghost predicate Reached(original: seq<Line>, hunks: seq<Hunk>, k: nat, oldIndex: nat, newContent: seq<Line>) {
    && oldIndex <= |original| && k <= |hunks|
    && (forall fault :: FirstFault(original, 0, hunks, fault) <==> FirstFault(original, oldIndex, hunks[k..], fault))
    && Preview(original, 0, hunks) == Prepend(newContent, Preview(original, oldIndex, hunks[k..]))
  }

  lemma ReachedNone(original: seq<Line>, hunks: seq<Hunk>)
    ensures Reached(original, hunks, 0, 0, [])
  {
    assert hunks[0..] == hunks;
    PrependNothing(Preview(original, 0, hunks));
  }

  lemma ReachedNext(original: seq<Line>, hunks: seq<Hunk>, k: nat, oldIndex: nat, newContent: seq<Line>)
    requires Reached(original, hunks, k, oldIndex, newContent) && k < |hunks| && FitsAt(original, oldIndex, hunks[k])
    ensures Reached(original, hunks, k + 1, End(hunks[k]), newContent + original[oldIndex..Start(hunks[k])] + NewSide(hunks[k].lines))
  {
    var h := hunks[k];
    assert hunks[k..][0] == h && hunks[k..][1..] == hunks[k + 1..];
    var gap, rest := original[oldIndex..Start(h)], Preview(original, End(h), hunks[k + 1..]);
    assert Preview(original, oldIndex, hunks[k..]) == Prepend(gap + NewSide(h.lines), rest);
    PrependTwice(newContent, gap + NewSide(h.lines), rest);
    assert newContent + (gap + NewSide(h.lines)) == newContent + gap + NewSide(h.lines);
  }

  lemma ReachedFault(original: seq<Line>, hunks: seq<Hunk>, k: nat, oldIndex: nat, newContent: seq<Line>, fault: Fault)
    requires Reached(original, hunks, k, oldIndex, newContent) && k < |hunks|
    requires !FitsAt(original, oldIndex, hunks[k]) && FaultOf(original, oldIndex, hunks[k], fault)
    ensures Preview(original, 0, hunks).None? && FirstFault(original, 0, hunks, fault)
  {
    assert hunks[k..][0] == hunks[k];
  }

  /** The engine's preview loop computes `Preview`. */
  method ApplyHunksPreview(original: seq<Line>, hunks: seq<Hunk>) returns (r: Result<seq<Line>, Fault>)
    ensures r.Ok? <==> Preview(original, 0, hunks).Some?
    ensures r.Ok? ==> Preview(original, 0, hunks) == Some(r.value)
    ensures r.Err? ==> FirstFault(original, 0, hunks, r.error)
  {
    var newContent: seq<Line> := [];
    var oldIndex: nat := 0;
    ReachedNone(original, hunks);
    for k := 0 to |hunks|
      invariant Reached(original, hunks, k, oldIndex, newContent)
    {
      var fault, produced, cursor := FitHunk(original, oldIndex, hunks[k]);
      if fault.Some? {
        ReachedFault(original, hunks, k, oldIndex, newContent, fault.value);
        return Err(fault.value);
      }
      ReachedNext(original, hunks, k, oldIndex, newContent);
      newContent := newContent + original[oldIndex..Start(hunks[k])] + produced;
      oldIndex := cursor;
    }
    newContent := newContent + original[oldIndex..];
    return Ok(newContent);
  }

  /** The checks on one hunk: its place, its lines, its counts. */
  method FitHunk(original: seq<Line>, oldIndex: nat, h: Hunk) returns (fault: Option<Fault>, produced: seq<Line>, cursor: nat)
    requires oldIndex <= |original|
    ensures fault.None? <==> FitsAt(original, oldIndex, h)
    ensures fault.None? ==> produced == NewSide(h.lines) && cursor == End(h)
    ensures fault.Some? ==> FaultOf(original, oldIndex, h, fault.value)
  {
    var start := if h.oldStart - 1 > 0 then h.oldStart - 1 else 0;
    if start < oldIndex {
      return Some(OverlappingHunks), [], oldIndex;
    }
    if start > |original| {
      return Some(StartBeyondEnd), [], oldIndex;
    }
    fault, produced, cursor := WalkHunk(original, start, h.lines);
    if fault.Some? {
      return;
    }
    if h.oldCount != 0 && cursor - start != h.oldCount {
      return Some(OldCountMismatch), produced, cursor;
    }
    if h.newCount != 0 && |produced| != h.newCount {
      return Some(NewCountMismatch), produced, cursor;
    }
  }

  function Prepend(a: seq<Line>, b: Option<seq<Line>>): Option<seq<Line>> {
    if b.None? then None else Some(a + b.value)
  }

  lemma PrependNothing(b: Option<seq<Line>>)
    ensures Prepend([], b) == b
  {
    if b.Some? {
      assert [] + b.value == b.value;
    }
  }

  lemma PrependTwice(a: seq<Line>, b: seq<Line>, c: Option<seq<Line>>)
    ensures Prepend(a, Prepend(b, c)) == Prepend(a + b, c)
  {
    if c.Some? {
      assert a + (b + c.value) == (a + b) + c.value;
    }
  }

  // ----- what an accepted hunk list means -----

  /** Gaps and sides laid out alternately; there is one gap more than there are sides. */
  function Interleave(gaps: seq<seq<Line>>, sides: seq<seq<Line>>): seq<Line>
    requires |gaps| == |sides| + 1
  {
    if sides == [] then gaps[0] else gaps[0] + sides[0] + Interleave(gaps[1..], sides[1..])
  }

  function OldSides(hunks: seq<Hunk>): (r: seq<seq<Line>>)
    ensures |r| == |hunks|
  {
    seq(|hunks|, i requires 0 <= i < |hunks| => OldSide(hunks[i].lines))
  }

  function NewSides(hunks: seq<Hunk>): (r: seq<seq<Line>>)
    ensures |r| == |hunks|
  {
    seq(|hunks|, i requires 0 <= i < |hunks| => NewSide(hunks[i].lines))
  }

  /** Each hunk starts where its gap ends, `from` being the position of the first gap. */
  predicate Lands(from: nat, gaps: seq<seq<Line>>, hunks: seq<Hunk>)
    requires |gaps| == |hunks| + 1
    decreases |hunks|
  {
    hunks != [] ==>
      && Start(hunks[0]) == from + |gaps[0]|
      && CountsAgree(hunks[0])
      && Lands(End(hunks[0]), gaps[1..], hunks[1..])
  }

  /** The file is the gaps with the hunks' old sides between them, in place. */
  ghost predicate Splits(original: seq<Line>, hunks: seq<Hunk>, gaps: seq<seq<Line>>) {
    && |gaps| == |hunks| + 1
    && original == Interleave(gaps, OldSides(hunks))
    && Lands(0, gaps, hunks)
  }

  lemma SidesTail(hunks: seq<Hunk>)
    requires hunks != []
    ensures OldSides(hunks)[1..] == OldSides(hunks[1..]) && NewSides(hunks)[1..] == NewSides(hunks[1..])
    ensures OldSides(hunks)[0] == OldSide(hunks[0].lines) && NewSides(hunks)[0] == NewSide(hunks[0].lines)
  {
  }

  lemma {:induction false} PreviewSplitsFrom(original: seq<Line>, from: nat, hunks: seq<Hunk>) returns (gaps: seq<seq<Line>>)
    requires from <= |original| && Preview(original, from, hunks).Some?
    ensures |gaps| == |hunks| + 1
    ensures original[from..] == Interleave(gaps, OldSides(hunks)) && Lands(from, gaps, hunks)
    ensures Preview(original, from, hunks) == Some(Interleave(gaps, NewSides(hunks)))
    decreases |hunks|
  {
    if hunks == [] {
      gaps := [original[from..]];
    } else {
      var h := hunks[0];
      var rest := PreviewSplitsFrom(original, End(h), hunks[1..]);
      gaps := [original[from..Start(h)]] + rest;
      SidesTail(hunks);
      assert gaps[1..] == rest;
      assert original[from..] == original[from..Start(h)] + original[Start(h)..End(h)] + original[End(h)..];
    }
  }

  lemma {:induction false} SplitsPreviewFrom(original: seq<Line>, from: nat, hunks: seq<Hunk>, gaps: seq<seq<Line>>)
    requires from <= |original| && |gaps| == |hunks| + 1
    requires original[from..] == Interleave(gaps, OldSides(hunks)) && Lands(from, gaps, hunks)
    ensures Preview(original, from, hunks) == Some(Interleave(gaps, NewSides(hunks)))
    decreases |hunks|
  {
    if hunks != [] {
      var h := hunks[0];
      SidesTail(hunks);
      var tail := Interleave(gaps[1..], OldSides(hunks[1..]));
      SplitAt(original, from, gaps[0], OldSide(h.lines), tail);
      SplitsPreviewFrom(original, End(h), hunks[1..], gaps[1..]);
    }
  }

  lemma SplitAt(original: seq<Line>, from: nat, a: seq<Line>, b: seq<Line>, c: seq<Line>)
    requires from <= |original| && original[from..] == a + b + c
    ensures from + |a| + |b| <= |original|
    ensures original[from..from + |a|] == a
    ensures original[from + |a|..from + |a| + |b|] == b
    ensures original[from + |a| + |b|..] == c
  {
    var s := original[from..];
    assert |s| == |a| + |b| + |c|;
    assert original[from..from + |a|] == s[..|a|] == a;
    assert original[from + |a|..from + |a| + |b|] == s[|a|..|a| + |b|] == b;
    assert original[from + |a| + |b|..] == s[|a| + |b|..] == c;
  }

  /** A hunk list is accepted with result `out` exactly when the file splits into gaps
      and old sides, and `out` is the same gaps with the new sides. */
  lemma PreviewIsReplacement(original: seq<Line>, hunks: seq<Hunk>, out: seq<Line>)
    ensures Preview(original, 0, hunks) == Some(out) <==>
      exists gaps :: Splits(original, hunks, gaps) && out == Interleave(gaps, NewSides(hunks))
  {
    assert original[0..] == original;
    if Preview(original, 0, hunks) == Some(out) {
      var gaps := PreviewSplitsFrom(original, 0, hunks);
      assert Splits(original, hunks, gaps);
    }
    forall gaps | Splits(original, hunks, gaps) && out == Interleave(gaps, NewSides(hunks))
      ensures Preview(original, 0, hunks) == Some(out)
    {
      SplitsPreviewFrom(original, 0, hunks, gaps);
    }
  }

  // ----- sides, counts and places in plain terms -----

  function HowMany(lines: seq<HunkLine>, kind: Kind): nat {
    if lines == [] then 0 else (if lines[0].kind == kind then 1 else 0) + HowMany(lines[1..], kind)
  }

  /** The old side is the texts of the context and removed lines in order, the new side those
      of the context and added lines. */
  lemma {:induction false} SidesAppend(a: seq<HunkLine>, b: seq<HunkLine>)
    ensures OldSide(a + b) == OldSide(a) + OldSide(b) && NewSide(a + b) == NewSide(a) + NewSide(b)
  {
    if b == [] {
      assert a + b == a;
    } else {
      var rest, last := b[..|b| - 1], b[|b| - 1];
      SidesAppend(a, rest);
      assert b == rest + [last] && a + b == (a + rest) + [last];
      SidesLast(a + rest, last);
      SidesLast(rest, last);
      Grouped(OldSide(a), OldSide(rest), if last.kind.Add? then [] else [last.text]);
      Grouped(NewSide(a), NewSide(rest), if last.kind.Remove? then [] else [last.text]);
    }
  }

  lemma Grouped(a: seq<Line>, b: seq<Line>, c: seq<Line>)
    ensures (a + b) + c == a + (b + c)
  {
  }

  lemma SidesLast(lines: seq<HunkLine>, last: HunkLine)
    ensures OldSide(lines + [last]) == OldSide(lines) + if last.kind.Add? then [] else [last.text]
    ensures NewSide(lines + [last]) == NewSide(lines) + if last.kind.Remove? then [] else [last.text]
  {
    assert (lines + [last])[..|lines|] == lines;
  }

  lemma SidesOfOne(text: Line)
    ensures OldSide([HunkLine(Context, text)]) == [text] && NewSide([HunkLine(Context, text)]) == [text]
    ensures OldSide([HunkLine(Remove, text)]) == [text] && NewSide([HunkLine(Remove, text)]) == []
    ensures OldSide([HunkLine(Add, text)]) == [] && NewSide([HunkLine(Add, text)]) == [text]
  {
    assert forall k: Kind :: [HunkLine(k, text)][..0] == [];
  }

  lemma {:induction false} SideLengths(lines: seq<HunkLine>)
    ensures |OldSide(lines)| == HowMany(lines, Context) + HowMany(lines, Remove)
    ensures |NewSide(lines)| == HowMany(lines, Context) + HowMany(lines, Add)
  {
    if lines != [] {
      SideLengths(lines[1..]);
      assert lines == [lines[0]] + lines[1..];
      SidesAppend([lines[0]], lines[1..]);
      SidesOfOne(lines[0].text);
    }
  }

  /** One hunk is accepted exactly if its old side stands at the place its range names, or at
      the start of the file for a range that starts at zero, and each count is zero or the
      length of its side; the new side then stands there instead. */
  lemma OneHunkExactly(original: seq<Line>, h: Hunk, removed: seq<Line>, added: seq<Line>, out: seq<Line>)
    requires removed == OldSide(h.lines) && added == NewSide(h.lines)
    ensures var at := if h.oldStart <= 1 then 0 else h.oldStart - 1;
      Preview(original, 0, [h]) == Some(out) <==>
        && at + |removed| <= |original| && original[at..at + |removed|] == removed
        && (h.oldCount == 0 || h.oldCount == |removed|) && (h.newCount == 0 || h.newCount == |added|)
        && out == original[..at] + added + original[at + |removed|..]
  {
    OneHunk(original, h, removed, added);
    OneHunkMeans(original, h, removed, added, Preview(original, 0, [h]), out);
  }

  lemma OneHunkMeans(original: seq<Line>, h: Hunk, removed: seq<Line>, added: seq<Line>, preview: Option<seq<Line>>, out: seq<Line>)
    requires removed == OldSide(h.lines) && added == NewSide(h.lines)
    requires preview ==
      if MatchesAt(original, Start(h), removed) && CountsAgree(h)
      then Some(original[..Start(h)] + added + original[Start(h) + |removed|..]) else None
    ensures var at := if h.oldStart <= 1 then 0 else h.oldStart - 1;
      preview == Some(out) <==>
        && at + |removed| <= |original| && original[at..at + |removed|] == removed
        && (h.oldCount == 0 || h.oldCount == |removed|) && (h.newCount == 0 || h.newCount == |added|)
        && out == original[..at] + added + original[at + |removed|..]
  {
  }

  lemma OneHunk(original: seq<Line>, h: Hunk, removed: seq<Line>, added: seq<Line>)
    requires removed == OldSide(h.lines) && added == NewSide(h.lines)
    ensures Preview(original, 0, [h]) ==
      if MatchesAt(original, Start(h), removed) && CountsAgree(h)
      then Some(original[..Start(h)] + added + original[Start(h) + |removed|..]) else None
  {
    assert [h][1..] == [];
    if FitsAt(original, 0, h) {
      assert Preview(original, End(h), []) == Some(original[End(h)..]);
      assert original[0..Start(h)] == original[..Start(h)];
    }
  }

  /** Line `k` is expected in the file, and its text is not where it should be. */
  predicate Missing(original: seq<Line>, start: nat, lines: seq<HunkLine>, k: nat)
    requires k < |lines|
  {
    var at := start + |OldSide(lines[..k])|;
    !lines[k].kind.Add? && (at >= |original| || original[at] != lines[k].text)
  }

  /** A mismatch that is reported names a line of its kind: a context or a removed line whose
      text is not in the file where it should be. */
  lemma MismatchNamesLine(original: seq<Line>, from: nat, h: Hunk, fault: Fault) returns (k: nat)
    requires FaultOf(original, from, h, fault) && from <= Start(h) <= |original|
    requires fault == ContextMismatch || fault == RemovalMismatch
    ensures k < |h.lines| && Missing(original, Start(h), h.lines, k)
    ensures fault == ContextMismatch ==> h.lines[k].kind == Context
    ensures fault == RemovalMismatch ==> h.lines[k].kind == Remove
  {
    k := MismatchOf(original, from, h, fault);
    MismatchedLine(original, Start(h), h.lines, k);
    NotAdded(original, Start(h), h.lines, k);
  }

  lemma NotAdded(original: seq<Line>, start: nat, lines: seq<HunkLine>, k: nat)
    requires k < |lines| && Missing(original, start, lines, k)
    ensures !lines[k].kind.Add?
  {
  }

  lemma MismatchOf(original: seq<Line>, from: nat, h: Hunk, fault: Fault) returns (k: nat)
    requires FaultOf(original, from, h, fault) && from <= Start(h) <= |original|
    requires fault == ContextMismatch || fault == RemovalMismatch
    ensures k < |h.lines| && FirstMismatch(original, Start(h), h.lines, k)
    ensures fault == if h.lines[k].kind.Context? then ContextMismatch else RemovalMismatch
  {
    k :| 0 <= k < |h.lines| && FirstMismatch(original, Start(h), h.lines, k)
      && fault == if h.lines[k].kind.Context? then ContextMismatch else RemovalMismatch;
  }

  lemma MismatchedLine(original: seq<Line>, start: nat, lines: seq<HunkLine>, k: nat)
    requires k < |lines| && FirstMismatch(original, start, lines, k)
    ensures Missing(original, start, lines, k)
  {
    SidesSnoc(lines, k);
    assert OldSide(lines[..k]) + [] == OldSide(lines[..k]);
    NextDiffers(original, start, OldSide(lines[..k]), lines[k].text);
  }

  lemma NextDiffers(original: seq<Line>, start: nat, side: seq<Line>, text: Line)
    requires MatchesAt(original, start, side)
    ensures !MatchesAt(original, start, side + [text]) ==> start + |side| >= |original| || original[start + |side|] != text
  {
    var at := start + |side|;
    if at < |original| {
      assert original[start..at + 1] == side + [original[at]];
    }
  }

  /** In a list each hunk is placed as if alone, and begins where the one before it ends or
      later. */
  lemma {:induction false} EachHunkFits(original: seq<Line>, from: nat, hunks: seq<Hunk>, i: nat)
    requires from <= |original| && Preview(original, from, hunks).Some? && i < |hunks|
    ensures Preview(original, 0, [hunks[i]]).Some?
    ensures i + 1 < |hunks| ==>
      (if hunks[i + 1].oldStart <= 1 then 0 else hunks[i + 1].oldStart - 1) >=
      (if hunks[i].oldStart <= 1 then 0 else hunks[i].oldStart - 1) + |OldSide(hunks[i].lines)|
    decreases |hunks|
  {
    if i > 0 {
      EachHunkFits(original, End(hunks[0]), hunks[1..], i - 1);
      assert hunks[1..][i - 1] == hunks[i];
    } else {
      assert [hunks[0]][1..] == [];
    }
  }

  // ----- reversal -----

  function ReverseLine(l: HunkLine): HunkLine {
    match l.kind
    case Context => l
    case Add => HunkLine(Remove, l.text)
    case Remove => HunkLine(Add, l.text)
  }

  function ReverseLines(lines: seq<HunkLine>): seq<HunkLine> {
    seq(|lines|, i requires 0 <= i < |lines| => ReverseLine(lines[i]))
  }

  lemma {:induction false} ReverseSides(lines: seq<HunkLine>)
    ensures OldSide(ReverseLines(lines)) == NewSide(lines)
    ensures NewSide(ReverseLines(lines)) == OldSide(lines)
  {
    if lines != [] {
      ReverseSides(lines[..|lines| - 1]);
      assert ReverseLines(lines)[..|lines| - 1] == ReverseLines(lines[..|lines| - 1]);
    }
  }

  /** The hunks that undo `hunks`: additions and removals swapped, counts swapped, and
      each start set to the place where the hunk landed in the output. `oldFrom` and
      `newFrom` are the positions reached in the original and in the output. */
  function ReverseHunks(hunks: seq<Hunk>, oldFrom: nat, newFrom: nat): (r: seq<Hunk>)
    ensures |r| == |hunks|
    decreases |hunks|
  {
    if hunks == [] then []
    else
      var h := hunks[0];
      var at := if Start(h) >= oldFrom then newFrom + (Start(h) - oldFrom) else newFrom;
      [Hunk(at + 1, h.newCount, Start(h) + 1, h.oldCount, ReverseLines(h.lines))]
      + ReverseHunks(hunks[1..], End(h), at + |NewSide(h.lines)|)
  }

  lemma {:induction false} ReverseLands(oldFrom: nat, newFrom: nat, gaps: seq<seq<Line>>, hunks: seq<Hunk>)
    requires |gaps| == |hunks| + 1 && Lands(oldFrom, gaps, hunks)
    ensures Lands(newFrom, gaps, ReverseHunks(hunks, oldFrom, newFrom))
    ensures OldSides(ReverseHunks(hunks, oldFrom, newFrom)) == NewSides(hunks)
    ensures NewSides(ReverseHunks(hunks, oldFrom, newFrom)) == OldSides(hunks)
    decreases |hunks|
  {
    if hunks != [] {
      var h, reversed := hunks[0], ReverseHunks(hunks, oldFrom, newFrom);
      var at := newFrom + |gaps[0]|;
      ReverseSides(h.lines);
      ReverseLands(End(h), at + |NewSide(h.lines)|, gaps[1..], hunks[1..]);
      assert reversed[1..] == ReverseHunks(hunks[1..], End(h), at + |NewSide(h.lines)|);
      SidesTail(hunks);
      SidesTail(reversed);
      assert OldSides(reversed) == [OldSides(reversed)[0]] + OldSides(reversed)[1..];
      assert NewSides(reversed) == [NewSides(reversed)[0]] + NewSides(reversed)[1..];
      assert OldSides(hunks) == [OldSides(hunks)[0]] + OldSides(hunks)[1..];
      assert NewSides(hunks) == [NewSides(hunks)[0]] + NewSides(hunks)[1..];
    }
  }

  /** The reversed hunks are accepted on the output and restore the original exactly. */
  lemma ReverseRestores(original: seq<Line>, hunks: seq<Hunk>, out: seq<Line>)
    requires Preview(original, 0, hunks) == Some(out)
    ensures Preview(out, 0, ReverseHunks(hunks, 0, 0)) == Some(original)
  {
    PreviewIsReplacement(original, hunks, out);
    var gaps :| Splits(original, hunks, gaps) && out == Interleave(gaps, NewSides(hunks));
    ReverseLands(0, 0, gaps, hunks);
    PreviewIsReplacement(out, ReverseHunks(hunks, 0, 0), original);
    assert Splits(out, ReverseHunks(hunks, 0, 0), gaps);
  }

  // ----- the place of a hunk without old lines -----

  predicate OnlyInserts(h: Hunk) {
    h.oldCount == 0 && OldSide(h.lines) == []
  }

  /** The unified format counts an empty old range from the line before it; the engine
      places such a hunk one line earlier. This is the hunk that the engine places where
      the format does. */
  function AsFormatted(h: Hunk): Hunk {
    if h.oldCount == 0 && h.oldStart > 0 then h.(oldStart := h.oldStart + 1) else h
  }

  /** The line that the range of an insertion names is in the file and before the next hunk. */
  predicate NamesLine(original: seq<Line>, h: Hunk, after: seq<Hunk>) {
    0 < h.oldStart <= |original| && (after != [] ==> h.oldStart <= Start(after[0]))
  }

  /** For a hunk that only inserts, wherever it stands in an accepted list, the engine and
      the format agree exactly when it is at the start of the file, or the line its range
      names is there and every inserted line equals it. */
  lemma InsertionPlacement(original: seq<Line>, before: seq<Hunk>, h: Hunk, after: seq<Hunk>)
    requires OnlyInserts(h) && Preview(original, 0, before + [h] + after).Some?
    ensures Preview(original, 0, before + [AsFormatted(h)] + after) == Preview(original, 0, before + [h] + after) <==>
      || h.oldStart <= 0
      || (NamesLine(original, h, after) && forall l :: l in NewSide(h.lines) ==> l == original[h.oldStart - 1])
  {
    PlacementFrom(original, 0, before, h, after);
  }

  lemma {:induction false} PlacementFrom(original: seq<Line>, from: nat, before: seq<Hunk>, h: Hunk, after: seq<Hunk>)
    requires from <= |original| && OnlyInserts(h) && Preview(original, from, before + [h] + after).Some?
    ensures Preview(original, from, before + [AsFormatted(h)] + after) == Preview(original, from, before + [h] + after) <==>
      || h.oldStart <= 0
      || (NamesLine(original, h, after) && forall l :: l in NewSide(h.lines) ==> l == original[h.oldStart - 1])
    decreases |before|
  {
    var engine, format := before + [h] + after, before + [AsFormatted(h)] + after;
    if before == [] {
      assert engine == [h] + after && format == [AsFormatted(h)] + after;
      PlacementHere(original, from, h, after);
    } else {
      var first := before[0];
      assert engine[1..] == before[1..] + [h] + after && format[1..] == before[1..] + [AsFormatted(h)] + after;
      PlacementFrom(original, End(first), before[1..], h, after);
      var kept := original[from..Start(first)] + NewSide(first.lines);
      PrependInjective(kept, Preview(original, End(first), engine[1..]), Preview(original, End(first), format[1..]));
    }
  }

  lemma PlacementHere(original: seq<Line>, from: nat, h: Hunk, after: seq<Hunk>)
    requires from <= |original| && OnlyInserts(h) && Preview(original, from, [h] + after).Some?
    ensures Preview(original, from, [AsFormatted(h)] + after) == Preview(original, from, [h] + after) <==>
      || h.oldStart <= 0
      || (NamesLine(original, h, after) && forall l :: l in NewSide(h.lines) ==> l == original[h.oldStart - 1])
  {
    var f, k, added := AsFormatted(h), h.oldStart, NewSide(h.lines);
    PreviewInsertion(original, from, h, after);
    if k > 0 {
      if NamesLine(original, h, after) {
        PreviewEarlier(original, k, after);
        PreviewInsertion(original, from, f, after);
        InsertionCommutes(original, from, added, k, Preview(original, k, after).value);
      } else {
        PreviewInsertion(original, from, f, after);
        assert k <= |original| ==> Preview(original, k, after).None?;
      }
    }
  }

  /** What a list that begins with an insertion gives. */
  lemma PreviewInsertion(original: seq<Line>, from: nat, h: Hunk, after: seq<Hunk>)
    requires from <= |original| && from <= Start(h) && OldSide(h.lines) == [] && CountsAgree(h)
    ensures Preview(original, from, [h] + after) ==
      if Start(h) <= |original| then Prepend(original[from..Start(h)] + NewSide(h.lines), Preview(original, Start(h), after)) else None
  {
    assert ([h] + after)[1..] == after;
    assert Start(h) <= |original| ==> original[Start(h)..Start(h)] == [];
  }

  /** Starting one line earlier keeps that line in front of the rest. */
  lemma PreviewEarlier(original: seq<Line>, k: nat, hunks: seq<Hunk>)
    requires 0 < k <= |original| && (hunks != [] ==> k <= Start(hunks[0]))
    ensures Preview(original, k - 1, hunks) == Prepend([original[k - 1]], Preview(original, k, hunks))
  {
    assert original[k - 1..] == [original[k - 1]] + original[k..];
    if hunks != [] && FitsAt(original, k, hunks[0]) {
      var gap := original[k..Start(hunks[0])];
      assert original[k - 1..Start(hunks[0])] == [original[k - 1]] + gap;
      var rest := Preview(original, End(hunks[0]), hunks[1..]);
      if rest.Some? {
        var tail := NewSide(hunks[0].lines) + rest.value;
        assert [original[k - 1]] + (gap + NewSide(hunks[0].lines) + rest.value) ==
          ([original[k - 1]] + gap) + NewSide(hunks[0].lines) + rest.value;
      }
    }
  }

  lemma PrependInjective(a: seq<Line>, b: Option<seq<Line>>, c: Option<seq<Line>>)
    ensures Prepend(a, b) == Prepend(a, c) <==> b == c
  {
    if b.Some? && c.Some? && a + b.value == a + c.value {
      assert b.value == (a + b.value)[|a|..] == (a + c.value)[|a|..] == c.value;
    }
  }

  /** Inserting before line `k` and after it gives the same file only if the insertion repeats that line. */
  lemma InsertionCommutes(original: seq<Line>, from: nat, added: seq<Line>, k: nat, rest: seq<Line>)
    requires from < k <= |original|
    ensures (original[from..k - 1] + added) + ([original[k - 1]] + rest) == (original[from..k] + added) + rest
      <==> forall l :: l in added ==> l == original[k - 1]
  {
    var front, line := original[from..k - 1], original[k - 1];
    assert original[from..k] == front + [line];
    assert front + added + ([line] + rest) == front + (added + [line]) + rest;
    assert original[from..k] + added + rest == front + ([line] + added) + rest;
    SandwichEqual(front, added + [line], [line] + added, rest);
    RotateEqual(added, line);
  }

  lemma SandwichEqual(a: seq<Line>, b: seq<Line>, c: seq<Line>, d: seq<Line>)
    requires |b| == |c|
    ensures a + b + d == a + c + d <==> b == c
  {
    if a + b + d == a + c + d {
      assert b == (a + b + d)[|a|..|a| + |b|];
      assert c == (a + c + d)[|a|..|a| + |c|];
    }
  }

  lemma RotateEqual(added: seq<Line>, line: Line)
    ensures added + [line] == [line] + added <==> forall l :: l in added ==> l == line
  {
    if added + [line] == [line] + added {
      for i := 0 to |added|
        invariant forall j :: 0 <= j < i ==> added[j] == line
      {
        assert (added + [line])[i] == ([line] + added)[i];
      }
    }
    if forall l :: l in added ==> l == line {
      assert forall i :: 0 <= i < |added| ==> added[i] in added;
      assert added + [line] == [line] + added;
    }
  }
}
