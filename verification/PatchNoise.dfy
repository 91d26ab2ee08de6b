/** What the patch parser reads besides the printed form: git's header lines between the
    files, marks for a missing newline, ranges without a count, and text after the ranges;
    and which texts it refuses. */
module PatchNoise {
  import opened Outcomes
  import opened Text
  import opened PatchHunks
  import opened PatchParse
  import opened PatchRoundTrip

  // ----- git's header lines -----

  /** Lines like those git writes before a file: they begin with a git header, and none is
      taken for the header of a file. */
  predicate GitLines(block: seq<string>) {
    block != [] && IsGitHeader(block[0]) && forall k :: 0 <= k < |block| ==> !IsFileHeader(block[k])
  }

  /** The printed files, each behind its block of lines. */
  function PrintGit(files: seq<FilePatch>, blocks: seq<seq<string>>): seq<string>
    requires |blocks| == |files|
  {
    if files == [] then []
    else
      blocks[0] + (["--- " + files[0].oldPath + "\n", "+++ " + files[0].newPath + "\n"]
                   + PrintHunks(files[0].hunks) + PrintGit(files[1..], blocks[1..]))
  }

  /** Lines before a file header that are none are skipped. */
  lemma {:induction false} LinesSkipped(block: seq<string>, rest: seq<string>)
    requires forall k :: 0 <= k < |block| ==> !IsFileHeader(block[k])
    ensures Files(block + rest) == Files(rest)
  {
    if block == [] {
      assert block + rest == rest;
    } else {
      assert (block + rest)[1..] == block[1..] + rest;
      LinesSkipped(block[1..], rest);
    }
  }

  /** Reading a printed file patch is reading its hunks, then the rest. */
  lemma OneFile(f: FilePatch, rest: seq<string>)
    requires Trimmed(f.oldPath) && Trimmed(f.newPath)
    ensures var hunks := Hunks(PrintHunks(f.hunks) + rest);
      Files(["--- " + f.oldPath + "\n", "+++ " + f.newPath + "\n"] + PrintHunks(f.hunks) + rest) ==
      if hunks.Err? then Err(hunks.error)
      else FilesAfter([f.(hunks := hunks.value.value)], Files(hunks.value.rest))
  {
    FileHeaderShape(f.oldPath, f.newPath);
    TwoThenRest("--- " + f.oldPath + "\n", "+++ " + f.newPath + "\n", PrintHunks(f.hunks), rest);
  }

  lemma PrintGitStarts(files: seq<FilePatch>, blocks: seq<seq<string>>)
    requires |blocks| == |files| && forall i :: 0 <= i < |blocks| ==> GitLines(blocks[i])
    ensures var lines := PrintGit(files, blocks); lines == [] || IsGitHeader(lines[0])
  {
    if files != [] {
      assert GitLines(blocks[0]);
    }
  }

  /** A patch printed as git writes it reads back exactly if no removal looks like a file
      header: with git's lines in between, a file header is never taken for a removal. */
  lemma {:induction false} GitDiffReads(files: seq<FilePatch>, blocks: seq<seq<string>>)
    requires TrimmedPaths(files) && |blocks| == |files| && forall i :: 0 <= i < |blocks| ==> GitLines(blocks[i])
    ensures Files(PrintGit(files, blocks)) == Ok(files) <==> forall i :: 0 <= i < |files| ==> BodiesClear(files[i].hunks)
  {
    if files != [] {
      var f, rest := files[0], PrintGit(files[1..], blocks[1..]);
      assert GitLines(blocks[0]);
      LinesSkipped(blocks[0], ["--- " + f.oldPath + "\n", "+++ " + f.newPath + "\n"] + PrintHunks(f.hunks) + rest);
      OneFile(f, rest);
      PrintGitStarts(files[1..], blocks[1..]);
      GitDiffReads(files[1..], blocks[1..]);
      assert (forall i :: 0 <= i < |files| ==> BodiesClear(files[i].hunks)) <==>
        BodiesClear(f.hunks) && forall i :: 0 <= i < |files[1..]| ==> BodiesClear(files[1..][i].hunks) by {
        assert forall i :: 0 < i < |files| ==> files[i] == files[1..][i - 1];
      }
      if !BodiesClear(f.hunks) {
        HunksCutShort(f.hunks, rest);
      } else {
        HunksReadBack(f.hunks, rest);
        ConsAgrees(f, Files(rest), files);
      }
    }
  }

  // ----- marks for a missing newline -----

  const MARK := "\\ No newline at end of file"

  /** The printed body with a mark behind some of its lines. */
  function PrintMarked(lines: seq<HunkLine>, marked: seq<bool>): seq<string>
    requires |marked| == |lines|
  {
    if lines == [] then []
    else [PrintLine(lines[0])] + (if marked[0] then [MARK + "\n"] else []) + PrintMarked(lines[1..], marked[1..])
  }

  lemma MarkSkipped(rest: seq<string>)
    ensures Body([MARK + "\n"] + rest) == Body(rest)
  {
    var l := MARK + "\n";
    assert l[0] == '\\' && "@@ "[0] == '@' && "--- "[0] == '-' && "diff --git"[0] == 'd';
    assert NO_NEWLINE + " at end of file" == MARK;
    assert ([l] + rest)[1..] == rest;
  }

  lemma LineRead(l: HunkLine, rest: seq<string>)
    requires !LooksLikeHeader(l)
    ensures Body([PrintLine(l)] + rest) == After([l], Body(rest))
  {
    PrintedLine(l);
    assert ([PrintLine(l)] + rest)[1..] == rest;
  }

  /** The marks do not change what is read. */
  lemma {:induction false} MarksSkipped(lines: seq<HunkLine>, marked: seq<bool>, rest: seq<string>)
    requires |marked| == |lines| && BodyClear(lines)
    ensures Body(PrintMarked(lines, marked) + rest) == After(lines, Body(rest))
  {
    if lines == [] {
      assert PrintMarked(lines, marked) + rest == rest;
      AfterNothing(Body(rest));
    } else {
      var later := PrintMarked(lines[1..], marked[1..]) + rest;
      MarksSkipped(lines[1..], marked[1..], rest);
      MarkSkipped(later);
      MarkedStep(lines, marked, rest);
      LineRead(lines[0], if marked[0] then [MARK + "\n"] + later else later);
      AfterTwice([lines[0]], lines[1..], Body(rest));
      assert [lines[0]] + lines[1..] == lines;
    }
  }

  lemma MarkedStep(lines: seq<HunkLine>, marked: seq<bool>, rest: seq<string>)
    requires |marked| == |lines| && lines != []
    ensures var later := PrintMarked(lines[1..], marked[1..]) + rest;
      PrintMarked(lines, marked) + rest == [PrintLine(lines[0])] + if marked[0] then [MARK + "\n"] + later else later
  {
    LinesGrouped([PrintLine(lines[0])], if marked[0] then [MARK + "\n"] else [], PrintMarked(lines[1..], marked[1..]), rest);
  }

  lemma LinesGrouped(a: seq<string>, b: seq<string>, c: seq<string>, d: seq<string>)
    ensures a + b + c + d == a + (b + (c + d))
    ensures b == [] ==> a + b + c + d == a + (c + d)
  {
  }

  // ----- hunk headers -----

  /** A range without a count is one line long. */
  lemma RangeWithoutCount(sign: char, start: int)
    requires sign == '-' || sign == '+'
    ensures ParseRange([sign] + Printed(start)) == Ok((start, 1))
  {
    var tok := [sign] + Printed(start);
    assert tok[1..] == Printed(start);
    PrintedCharacters(start);
    NoComma(Printed(start));
    ParsePrintedInt(start);
  }

  lemma {:induction false} NoComma(s: string)
    requires forall i :: 0 <= i < |s| ==> s[i] != ','
    ensures IndexOf(s, ',') == |s|
  {
    if s != [] {
      NoComma(s[1..]);
    }
  }

  /** What stands after the second mark of a hunk header does not matter. */
  lemma TextAfterRanges(a: string, b: string, text: string)
    requires a != [] && b != []
    requires forall i :: 0 <= i < |a| ==> !IsWhitespace(a[i]) && a[i] != '@'
    requires forall i :: 0 <= i < |b| ==> !IsWhitespace(b[i]) && b[i] != '@'
    ensures var r, s := ParseRange(a), ParseRange(b);
      ParseHeader("@@ " + (a + " " + b) + " @@" + text) == if r.Ok? && s.Ok? then Ok((r.value, s.value)) else Err(InvalidRange)
  {
    var core := a + " " + b;
    var line := "@@ " + core + " @@";
    CoreCharacters(a, b);
    MarkedText(core);
    HeaderKept(line, text);
    var header := Strip(line + text);
    assert |core| + 5 < |line|;
    MarkFound(header, line, |core| + 4);
    assert header[2..|core| + 4] == line[2..|core| + 4];
    StripSpaces(core);
    TwoWords(a, b);
    MarkedRanges(line + text, header, |core| + 4, core, a, b);
  }

  lemma MarkedRanges(l: string, header: string, n: nat, core: string, a: string, b: string)
    requires header == Strip(l) && 2 <= n < |header| && FindMark(header, 2) == n
    requires Strip(header[2..n]) == core && Words(core) == [a, b]
    ensures var r, s := ParseRange(a), ParseRange(b);
      ParseHeader(l) == if r.Ok? && s.Ok? then Ok((r.value, s.value)) else Err(InvalidRange)
  {
  }

  /** Stripping a line that starts and ends well before the text keeps it in front. */
  lemma HeaderKept(line: string, text: string)
    requires line != [] && Trimmed(line)
    ensures line <= Strip(line + text)
  {
    assert (line + text)[0] == line[0];
    assert StripLeft(line + text) == line + text;
    StripRightKeeps(line, text);
  }

  lemma {:induction false} StripRightKeeps(line: string, text: string)
    requires line != [] && !IsWhitespace(line[|line| - 1])
    ensures line <= StripRight(line + text)
  {
    var all := line + text;
    if text == [] {
      assert all == line;
    } else if IsWhitespace(text[|text| - 1]) {
      assert all[..|all| - 1] == line + text[..|text| - 1];
      StripRightKeeps(line, text[..|text| - 1]);
    } else {
      assert all[|all| - 1] == text[|text| - 1];
    }
  }

  lemma MarkFound(header: string, line: string, n: nat)
    requires line <= header && 2 <= |line| && FindMark(line, 2) == n && n + 1 < |line|
    ensures FindMark(header, 2) == n
  {
    MarkFoundFrom(header, line, 2, n);
  }

  lemma {:induction false} MarkFoundFrom(header: string, line: string, from: nat, n: nat)
    requires line <= header && from <= |line| && FindMark(line, from) == n && n + 1 < |line|
    ensures FindMark(header, from) == n
    decreases |line| - from
  {
    if !(line[from] == '@' && line[from + 1] == '@') {
      MarkFoundFrom(header, line, from + 1, n);
    }
  }

  /** Other lines between a file header and its hunks are skipped. */
  lemma {:induction false} StrayLinesSkipped(block: seq<string>, rest: seq<string>)
    requires forall k :: 0 <= k < |block| ==> !IsHunkHeader(block[k]) && !IsFileHeader(block[k]) && !IsGitHeader(block[k])
    ensures Hunks(block + rest) == Hunks(rest)
  {
    if block == [] {
      assert block + rest == rest;
    } else {
      assert (block + rest)[1..] == block[1..] + rest;
      StrayLinesSkipped(block[1..], rest);
    }
  }

  // ----- texts that are refused -----

  /** A text without a file header is no patch. */
  lemma {:induction false} NoHeaders(lines: seq<string>)
    requires forall k :: 0 <= k < |lines| ==> !IsFileHeader(lines[k])
    ensures Parse(lines) == Err(NoFileHeaders)
  {
    LinesSkipped(lines, []);
    assert lines + [] == lines;
  }

  /** After lines that are skipped, a file header must be followed by its second line. */
  lemma SecondHeaderMissing(block: seq<string>, first: string, rest: seq<string>)
    requires IsFileHeader(first) && forall k :: 0 <= k < |block| ==> !IsFileHeader(block[k])
    ensures rest == [] ==> Parse(block + ([first] + rest)) == Err(UnexpectedEnd)
    ensures rest != [] && !("+++ " <= rest[0]) ==> Parse(block + ([first] + rest)) == Err(MissingNewHeader)
  {
    LinesSkipped(block, [first] + rest);
  }

  /** A line of a body that is no context, addition, removal, mark or header is refused. */
  lemma {:induction false} BadMarker(lines: seq<HunkLine>, bad: string, rest: seq<string>)
    requires BodyClear(lines) && bad != "" && !EndsBody(bad) && !(MARK <= bad)
    requires bad[0] != ' ' && bad[0] != '+' && bad[0] != '-'
    ensures Body(PrintBody(lines) + ([bad] + rest)) == Err(InvalidMarker)
  {
    assert NO_NEWLINE + " at end of file" == MARK;
    BodyReadsBack(lines, [bad] + rest);
  }
}
