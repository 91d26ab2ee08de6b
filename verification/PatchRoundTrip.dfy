/** The printed form of a patch, and exactly when parsing it gives the patch back. */
module PatchRoundTrip {
  import opened Outcomes
  import opened Text
  import opened PatchHunks
  import opened PatchParse

  // ----- printing -----

  function Marker(k: Kind): char {
    match k
    case Context => ' '
    case Add => '+'
    case Remove => '-'
  }

  function PrintLine(l: HunkLine): string {
    [Marker(l.kind)] + l.text
  }

  function PrintBody(lines: seq<HunkLine>): seq<string> {
    if lines == [] then [] else [PrintLine(lines[0])] + PrintBody(lines[1..])
  }

  function PrintRange(start: int, count: int): string {
    Printed(start) + "," + Printed(count)
  }

  function HunkHeader(h: Hunk): string {
    "@@ " + (['-'] + PrintRange(h.oldStart, h.oldCount) + " " + (['+'] + PrintRange(h.newStart, h.newCount))) + " @@" + "\n"
  }

  function PrintHunks(hunks: seq<Hunk>): seq<string> {
    if hunks == [] then [] else [HunkHeader(hunks[0])] + PrintBody(hunks[0].lines) + PrintHunks(hunks[1..])
  }

  function PrintFiles(files: seq<FilePatch>): seq<string> {
    if files == [] then []
    else
      ["--- " + files[0].oldPath + "\n", "+++ " + files[0].newPath + "\n"]
      + PrintHunks(files[0].hunks) + PrintFiles(files[1..])
  }

  predicate TrimmedPaths(files: seq<FilePatch>) {
    forall i :: 0 <= i < |files| ==> Trimmed(files[i].oldPath) && Trimmed(files[i].newPath)
  }

  // ----- when the printed form can be read back -----

  /** Its printed form is a removal that the parser takes for the next file's header. */
  predicate LooksLikeHeader(l: HunkLine) {
    EndsBody(PrintLine(l))
  }

  /** No line of the hunks is taken for a header. */
  predicate BodiesClear(hunks: seq<Hunk>) {
    forall i :: 0 <= i < |hunks| ==> BodyClear(hunks[i].lines)
  }

  predicate BodyClear(lines: seq<HunkLine>) {
    forall j :: 0 <= j < |lines| ==> !LooksLikeHeader(lines[j])
  }

  /** After a file with hunks, the next file's header is not taken for a removal. */
  predicate HeaderSeen(hunks: seq<Hunk>, next: seq<FilePatch>) {
    hunks == [] || next == [] || !(NO_NEWLINE <= next[0].oldPath)
  }

  predicate ReadsBack(files: seq<FilePatch>) {
    files != [] ==> BodiesClear(files[0].hunks) && HeaderSeen(files[0].hunks, files[1..]) && ReadsBack(files[1..])
  }

  /** Only a removal whose text starts with `-- ` looks like a header. */
  lemma HeaderLookalikes(l: HunkLine)
    ensures LooksLikeHeader(l) <==> l.kind.Remove? && "-- " <= l.text && !("-- " + NO_NEWLINE <= l.text)
  {
    var p := PrintLine(l);
    assert p[1..] == l.text;
    assert "--- " == ['-'] + "-- ";
    assert "--- " + NO_NEWLINE == ['-'] + ("-- " + NO_NEWLINE);
    ConsPrefix('-', "-- ", l.text);
    ConsPrefix('-', "-- " + NO_NEWLINE, l.text);
    assert p[0] == Marker(l.kind);
    assert "@@ "[0] == '@' && "diff --git"[0] == 'd' && "--- "[0] == '-';
  }

  lemma ConsPrefix(c: char, a: string, b: string)
    ensures [c] + a <= [c] + b <==> a <= b
  {
    if [c] + a <= [c] + b {
      assert a == ([c] + a)[1..] && b == ([c] + b)[1..];
    }
  }

  // ----- bodies -----

  lemma PrintedLine(l: HunkLine)
    ensures LineOf(PrintLine(l)) == Some(l)
    ensures !Skipped(PrintLine(l))
    ensures !IsHunkHeader(PrintLine(l)) && !IsGitHeader(PrintLine(l))
  {
    var p := PrintLine(l);
    assert p[1..] == l.text && p[0] == Marker(l.kind);
    assert (NO_NEWLINE + " at end of file")[0] == '\\';
    assert "@@ "[0] == '@' && "diff --git"[0] == 'd';
  }

  /** The printed lines from the first on: cut off at once, or the first and then the rest. */
  lemma BodyStep(lines: seq<HunkLine>, rest: seq<string>)
    requires lines != []
    ensures var all := PrintBody(lines) + rest;
      Body(all) == if LooksLikeHeader(lines[0]) then Ok(Parsed([], all))
                   else After([lines[0]], Body(PrintBody(lines[1..]) + rest))
  {
    var all := PrintBody(lines) + rest;
    PrintedLine(lines[0]);
    assert all[0] == PrintLine(lines[0]);
    assert all[1..] == PrintBody(lines[1..]) + rest;
  }

  lemma {:induction false} BodyReadsBack(lines: seq<HunkLine>, rest: seq<string>)
    requires BodyClear(lines)
    ensures Body(PrintBody(lines) + rest) == After(lines, Body(rest))
  {
    if lines == [] {
      assert PrintBody(lines) + rest == rest;
      AfterNothing(Body(rest));
    } else {
      BodyStep(lines, rest);
      BodyReadsBack(lines[1..], rest);
      AfterTwice([lines[0]], lines[1..], Body(rest));
      assert [lines[0]] + lines[1..] == lines;
    }
  }

  /** A lookalike cuts the body off in front of it. */
  lemma {:induction false} BodyCutShort(lines: seq<HunkLine>, rest: seq<string>, j: nat) returns (k: nat)
    requires j < |lines| && LooksLikeHeader(lines[j])
    ensures k < |lines| && LooksLikeHeader(lines[k])
    ensures Body(PrintBody(lines) + rest) == Ok(Parsed(lines[..k], PrintBody(lines[k..]) + rest))
  {
    BodyStep(lines, rest);
    if LooksLikeHeader(lines[0]) {
      k := 0;
      assert lines[0..] == lines;
    } else {
      var n := BodyCutShort(lines[1..], rest, j - 1);
      k := n + 1;
      CutLater(lines, n);
    }
  }

  lemma CutLater(lines: seq<HunkLine>, n: nat)
    requires n < |lines|
    ensures lines[..n + 1] == [lines[0]] + lines[1..][..n]
    ensures lines[n + 1..] == lines[1..][n..]
  {
  }

  // ----- headers -----

  lemma RangeReadsBack(sign: char, start: int, count: int)
    requires sign == '-' || sign == '+'
    ensures ParseRange([sign] + PrintRange(start, count)) == Ok((start, count))
  {
    var a, b := Printed(start), Printed(count);
    PrintedCharacters(start);
    var tok := [sign] + PrintRange(start, count);
    assert tok[1..] == a + "," + b;
    IndexOfComma(a, b);
    assert (a + "," + b)[..|a|] == a && (a + "," + b)[|a| + 1..] == b;
    ParsePrintedInt(start);
    ParsePrintedInt(count);
  }

  lemma {:induction false} IndexOfComma(a: string, b: string)
    requires forall i :: 0 <= i < |a| ==> a[i] != ','
    ensures IndexOf(a + "," + b, ',') == |a|
  {
    if a == [] {
      assert (a + "," + b)[0] == ',';
    } else {
      assert (a + "," + b)[0] == a[0];
      assert (a + "," + b)[1..] == a[1..] + "," + b;
      IndexOfComma(a[1..], b);
    }
  }

  /** A digit, a minus sign or a comma: neither blank nor `@`. */
  lemma RangeCharacters(start: int, count: int)
    ensures forall i :: 0 <= i < |PrintRange(start, count)| ==>
      !IsWhitespace(PrintRange(start, count)[i]) && PrintRange(start, count)[i] != '@'
  {
    var r := PrintRange(start, count);
    PrintedCharacters(start);
    PrintedCharacters(count);
    forall i | 0 <= i < |r| ensures IsDigit(r[i]) || r[i] == '-' || r[i] == ',' {
      if i < |Printed(start)| {
        assert r[i] == Printed(start)[i];
      } else if i > |Printed(start)| {
        assert r[i] == Printed(count)[i - |Printed(start)| - 1];
      }
    }
  }

  lemma {:induction false} FindMarkAt(s: string, from: nat, n: nat)
    requires from <= n && n + 1 < |s| && s[n] == '@' && s[n + 1] == '@'
    requires forall i :: from <= i < n ==> s[i] != '@'
    ensures FindMark(s, from) == n
    decreases n - from
  {
    if from < n {
      FindMarkAt(s, from + 1, n);
    }
  }

  lemma StripOneNewline(s: string)
    requires s != [] && Trimmed(s)
    ensures Strip(s + "\n") == s
  {
    var t := s + "\n";
    assert t[0] == s[0] && t[|t| - 1] == '\n' && t[..|t| - 1] == s;
    assert StripLeft(t) == t;
    assert StripRight(t) == StripRight(s) == s;
  }

  lemma StripSpaces(s: string)
    requires s != [] && Trimmed(s)
    ensures Strip(" " + s + " ") == s
  {
    var t := " " + s + " ";
    assert t[0] == ' ' && t[1..] == s + " ";
    assert (s + " ")[0] == s[0];
    assert StripLeft(t) == s + " ";
    assert (s + " ")[|s + " "| - 1] == ' ' && (s + " ")[..|s + " "| - 1] == s;
    assert StripRight(s + " ") == StripRight(s) == s;
  }

  /** The text between the marks of a printed header. */
  lemma MarkedText(core: string)
    requires core != [] && forall i :: 0 <= i < |core| ==> core[i] != '@'
    ensures var line := "@@ " + core + " @@";
      Trimmed(line) && FindMark(line, 2) == |core| + 4 && line[2..|core| + 4] == " " + core + " "
  {
    var line, n := "@@ " + core + " @@", |core| + 4;
    assert line[n] == '@' && line[n + 1] == '@';
    forall i | 2 <= i < n ensures line[i] != '@' {
      if 3 <= i < n - 1 {
        assert line[i] == core[i - 3];
      }
    }
    FindMarkAt(line, 2, n);
  }

  lemma HeaderText(a: string, b: string)
    requires a != [] && b != []
    requires forall i :: 0 <= i < |a| ==> !IsWhitespace(a[i]) && a[i] != '@'
    requires forall i :: 0 <= i < |b| ==> !IsWhitespace(b[i]) && b[i] != '@'
    ensures var header := Strip("@@ " + (a + " " + b) + " @@" + "\n");
      && |header| >= 2 && FindMark(header, 2) != |header|
      && Words(Strip(header[2..FindMark(header, 2)])) == [a, b]
  {
    var core := a + " " + b;
    var line := "@@ " + core + " @@";
    CoreCharacters(a, b);
    MarkedText(core);
    StripOneNewline(line);
    StripSpaces(core);
    TwoWords(a, b);
  }

  /** A printed range with its sign: neither blank nor `@` anywhere. */
  lemma SignedRange(sign: char, start: int, count: int)
    requires !IsWhitespace(sign) && sign != '@'
    ensures forall i :: 0 <= i < |[sign] + PrintRange(start, count)| ==>
      !IsWhitespace(([sign] + PrintRange(start, count))[i]) && ([sign] + PrintRange(start, count))[i] != '@'
  {
    RangeCharacters(start, count);
    var word := [sign] + PrintRange(start, count);
    forall i | 0 <= i < |word| ensures !IsWhitespace(word[i]) && word[i] != '@' {
      if i > 0 {
        assert word[i] == PrintRange(start, count)[i - 1];
      }
    }
  }

  lemma IsHeader(core: string)
    ensures IsHunkHeader("@@ " + core + " @@" + "\n")
  {
  }

  lemma HeaderReadsBack(h: Hunk)
    ensures IsHunkHeader(HunkHeader(h))
    ensures ParseHeader(HunkHeader(h)) == Ok(((h.oldStart, h.oldCount), (h.newStart, h.newCount)))
  {
    var a, b := ['-'] + PrintRange(h.oldStart, h.oldCount), ['+'] + PrintRange(h.newStart, h.newCount);
    IsHeader(a + " " + b);
    SignedRange('-', h.oldStart, h.oldCount);
    SignedRange('+', h.newStart, h.newCount);
    HeaderText(a, b);
    assert ParseRange(a) == Ok((h.oldStart, h.oldCount)) by { RangeReadsBack('-', h.oldStart, h.oldCount); }
    assert ParseRange(b) == Ok((h.newStart, h.newCount)) by { RangeReadsBack('+', h.newStart, h.newCount); }
  }

  lemma CoreCharacters(a: string, b: string)
    requires a != [] && b != []
    requires forall i :: 0 <= i < |a| ==> !IsWhitespace(a[i]) && a[i] != '@'
    requires forall i :: 0 <= i < |b| ==> !IsWhitespace(b[i]) && b[i] != '@'
    ensures Trimmed(a + " " + b)
    ensures forall i :: 0 <= i < |a + " " + b| ==> (a + " " + b)[i] != '@'
  {
    var core := a + " " + b;
    assert core[0] == a[0] && core[|core| - 1] == b[|b| - 1];
    forall i | 0 <= i < |core| ensures core[i] != '@' {
      if i < |a| {
        assert core[i] == a[i];
      } else if i > |a| {
        assert core[i] == b[i - |a| - 1];
      }
    }
  }

  // ----- hunks -----

  /** Reading from a good hunk header on is reading the body, then the remaining hunks. */
  lemma HunksFromHeader(lines: seq<string>, ranges: ((int, int), (int, int)))
    requires lines != [] && IsHunkHeader(lines[0]) && ParseHeader(lines[0]) == Ok(ranges)
    ensures var body := Body(lines[1..]);
      Hunks(lines) ==
      if body.Err? then Err(body.error)
      else After([MakeHunk(ranges, body.value.value)], Hunks(body.value.rest))
  {
  }

  lemma StepFrom(line: string, ranges: ((int, int), (int, int)), lines: seq<string>, rest: seq<string>)
    requires IsHunkHeader(line) && ParseHeader(line) == Ok(ranges)
    ensures var body := Body(lines + rest);
      Hunks([line] + lines + rest) ==
      if body.Err? then Err(body.error)
      else After([MakeHunk(ranges, body.value.value)], Hunks(body.value.rest))
  {
    HeadAndTail(line, lines, rest);
    HunksFromHeader([line] + lines + rest, ranges);
  }

  lemma HeadAndTail(line: string, lines: seq<string>, rest: seq<string>)
    ensures var all := [line] + lines + rest;
      all != [] && all[0] == line && all[1..] == lines + rest
  {
  }

  /** Reading a printed hunk is reading its body. */
  lemma HunkStep(h: Hunk, rest: seq<string>)
    ensures var body := Body(PrintBody(h.lines) + rest);
      Hunks([HunkHeader(h)] + PrintBody(h.lines) + rest) ==
      if body.Err? then Err(body.error)
      else After([h.(lines := body.value.value)], Hunks(body.value.rest))
  {
    HeaderReadsBack(h);
    StepFrom(HunkHeader(h), ((h.oldStart, h.oldCount), (h.newStart, h.newCount)), PrintBody(h.lines), rest);
  }

  /** Reading printed hunks is reading the first one's body, then the others. */
  lemma HunksStep(hunks: seq<Hunk>, rest: seq<string>)
    requires hunks != []
    ensures var h, tail := hunks[0], PrintHunks(hunks[1..]) + rest;
      var body := Body(PrintBody(h.lines) + tail);
      Hunks(PrintHunks(hunks) + rest) ==
      if body.Err? then Err(body.error)
      else After([h.(lines := body.value.value)], Hunks(body.value.rest))
  {
    var h, tail := hunks[0], PrintHunks(hunks[1..]) + rest;
    assert PrintHunks(hunks) + rest == [HunkHeader(h)] + PrintBody(h.lines) + tail;
    HunkStep(h, tail);
  }

  lemma NoHunks(rest: seq<string>)
    requires rest == [] || IsFileHeader(rest[0]) || IsGitHeader(rest[0])
    ensures Hunks(rest) == Ok(Parsed([], rest))
  {
    if rest != [] {
      assert !IsHunkHeader(rest[0]) by {
        assert "--- "[0] == '-' && "@@ "[0] == '@' && "diff --git"[0] == 'd';
      }
    }
  }

  /** A printed hunk header closes a body. */
  lemma HunkCloses(hunks: seq<Hunk>, rest: seq<string>)
    requires hunks != []
    ensures Body(PrintHunks(hunks) + rest) == Ok(Parsed([], PrintHunks(hunks) + rest))
  {
    HeaderReadsBack(hunks[0]);
    assert (PrintHunks(hunks) + rest)[0] == HunkHeader(hunks[0]);
  }

  /** So does what follows the last hunk. */
  lemma NextCloses(hunks: seq<Hunk>, rest: seq<string>)
    requires (rest == [] || EndsBody(rest[0]))
    ensures Body(PrintHunks(hunks) + rest) == Ok(Parsed([], PrintHunks(hunks) + rest))
  {
    if hunks != [] {
      HunkCloses(hunks, rest);
    } else {
      assert PrintHunks(hunks) + rest == rest;
    }
  }

  /** The first hunk comes back when what follows closes its body. */
  lemma FirstReadsBack(hunks: seq<Hunk>, rest: seq<string>)
    requires hunks != [] && BodyClear(hunks[0].lines)
    requires var tail := PrintHunks(hunks[1..]) + rest; Body(tail) == Ok(Parsed([], tail))
    ensures Hunks(PrintHunks(hunks) + rest) == After([hunks[0]], Hunks(PrintHunks(hunks[1..]) + rest))
  {
    var h, tail := hunks[0], PrintHunks(hunks[1..]) + rest;
    HunksStep(hunks, rest);
    BodyReadsBack(h.lines, tail);
    assert h.lines + [] == h.lines;
  }

  lemma TailClear(hunks: seq<Hunk>)
    requires hunks != [] && BodiesClear(hunks)
    ensures BodiesClear(hunks[1..]) && BodyClear(hunks[0].lines)
  {
    forall i | 0 <= i < |hunks[1..]| ensures BodyClear(hunks[1..][i].lines) {
      assert hunks[1..][i] == hunks[i + 1];
    }
  }

  lemma AfterFirst(h: Hunk, hunks: seq<Hunk>, rest: seq<string>)
    ensures After([h], Ok(Parsed(hunks, rest))) == Ok(Parsed([h] + hunks, rest))
  {
  }

  lemma {:induction false} HunksReadBack(hunks: seq<Hunk>, rest: seq<string>)
    requires BodiesClear(hunks)
    requires rest == [] || IsFileHeader(rest[0]) || IsGitHeader(rest[0])
    requires hunks == [] || rest == [] || EndsBody(rest[0])
    ensures Hunks(PrintHunks(hunks) + rest) == Ok(Parsed(hunks, rest))
  {
    if hunks == [] {
      assert PrintHunks(hunks) + rest == rest;
      NoHunks(rest);
    } else {
      TailClear(hunks);
      NextCloses(hunks[1..], rest);
      FirstReadsBack(hunks, rest);
      HunksReadBack(hunks[1..], rest);
      AfterFirst(hunks[0], hunks[1..], rest);
      assert [hunks[0]] + hunks[1..] == hunks;
    }
  }

  /** If a body holds a lookalike, the hunks do not come back. */
  lemma {:induction false} HunksCutShort(hunks: seq<Hunk>, rest: seq<string>)
    requires !BodiesClear(hunks)
    ensures var r := Hunks(PrintHunks(hunks) + rest); r.Ok? ==> r.value.value != hunks
  {
    var h, tail := hunks[0], PrintHunks(hunks[1..]) + rest;
    if !BodyClear(h.lines) {
      var j :| 0 <= j < |h.lines| && LooksLikeHeader(h.lines[j]);
      HunksStep(hunks, rest);
      var k := BodyCutShort(h.lines, tail, j);
      assert |h.lines[..k]| != |h.lines|;
    } else {
      var i :| 0 <= i < |hunks| && !BodyClear(hunks[i].lines);
      assert hunks[1..][i - 1] == hunks[i];
      HunkCloses(hunks[1..], rest);
      FirstReadsBack(hunks, rest);
      HunksCutShort(hunks[1..], rest);
    }
  }

  /** If the next file's header is taken for a removal, the last hunk grows by it. */
  lemma {:induction false} HunksRunOver(hunks: seq<Hunk>, rest: seq<string>)
    requires BodiesClear(hunks) && hunks != []
    requires rest != [] && !EndsBody(rest[0]) && IsFileHeader(rest[0])
    ensures var r := Hunks(PrintHunks(hunks) + rest); r.Ok? ==> r.value.value != hunks
  {
    if |hunks| == 1 {
      LastRunsOver(hunks, rest);
    } else {
      TailClear(hunks);
      HunkCloses(hunks[1..], rest);
      FirstReadsBack(hunks, rest);
      HunksRunOver(hunks[1..], rest);
    }
  }

  lemma LastRunsOver(hunks: seq<Hunk>, rest: seq<string>)
    requires BodiesClear(hunks) && |hunks| == 1
    requires rest != [] && !EndsBody(rest[0]) && IsFileHeader(rest[0])
    ensures var r := Hunks(PrintHunks(hunks) + rest); r.Ok? ==> r.value.value != hunks
  {
    var h, tail := hunks[0], PrintHunks(hunks[1..]) + rest;
    HunksStep(hunks, rest);
    BodyReadsBack(h.lines, tail);
    assert tail == rest;
    assert rest[0][0] == '-' && (NO_NEWLINE + " at end of file")[0] == '\\';
    assert LineOf(rest[0]).Some? && !Skipped(rest[0]);
    if Body(rest).Ok? {
      assert |Body(rest).value.value| > 0;
      assert |h.lines + Body(rest).value.value| > |h.lines|;
    }
  }

  // ----- files -----

  lemma PathReadsBack(prefix: string, path: string)
    requires |prefix| == 4 && prefix[3] == ' ' && Trimmed(path)
    ensures HeaderPath(prefix + path + "\n") == path
  {
    var line, body := prefix + path + "\n", prefix + path;
    assert line[|line| - 1] == '\n' && line[..|line| - 1] == body;
    assert RstripNewlines(body) == body by {
      assert body[|body| - 1] == if path == "" then ' ' else path[|path| - 1];
      assert IsWhitespace('\n');
    }
    assert body[4..] == path;
    StripTrimmed(path);
  }

  lemma PrintFilesStep(files: seq<FilePatch>)
    requires TrimmedPaths(files) && files != []
    ensures var f, lines := files[0], PrintFiles(files);
      && 2 <= |lines|
      && lines[0] == "--- " + f.oldPath + "\n" && lines[1] == "+++ " + f.newPath + "\n"
      && lines[2..] == PrintHunks(f.hunks) + PrintFiles(files[1..])
      && IsFileHeader(lines[0]) && "+++ " <= lines[1]
      && HeaderPath(lines[0]) == f.oldPath && HeaderPath(lines[1]) == f.newPath
  {
    FileHeaderShape(files[0].oldPath, files[0].newPath);
    TwoThenRest("--- " + files[0].oldPath + "\n", "+++ " + files[0].newPath + "\n", PrintHunks(files[0].hunks), PrintFiles(files[1..]));
  }

  lemma FileHeaderShape(oldPath: string, newPath: string)
    requires Trimmed(oldPath) && Trimmed(newPath)
    ensures IsFileHeader("--- " + oldPath + "\n") && "+++ " <= "+++ " + newPath + "\n"
    ensures HeaderPath("--- " + oldPath + "\n") == oldPath && HeaderPath("+++ " + newPath + "\n") == newPath
  {
    PathReadsBack("--- ", oldPath);
    PathReadsBack("+++ ", newPath);
  }

  lemma TwoThenRest(a: string, b: string, c: seq<string>, d: seq<string>)
    ensures var all := [a, b] + c + d; 2 <= |all| && all[0] == a && all[1] == b && all[2..] == c + d
  {
  }

  /** A printed file header closes a hunk body unless it reads like a removed marker line. */
  lemma FileHeaderCloses(path: string)
    ensures EndsBody("--- " + path + "\n") <==> !(NO_NEWLINE <= path)
  {
    var line, rest := "--- " + path + "\n", path + "\n";
    assert line[..4] == "--- " && line[4..] == rest;
    assert line[0] == '-' && "@@ "[0] == '@' && "diff --git"[0] == 'd';
    if "--- " + NO_NEWLINE <= line {
      assert NO_NEWLINE == ("--- " + NO_NEWLINE)[4..];
    }
    assert NO_NEWLINE[|NO_NEWLINE| - 1] == 'e';
  }

  lemma FileHeaderSeen(files: seq<FilePatch>)
    requires TrimmedPaths(files) && files != []
    ensures EndsBody(PrintFiles(files)[0]) <==> !(NO_NEWLINE <= files[0].oldPath)
  {
    PrintFilesStep(files);
    FileHeaderCloses(files[0].oldPath);
  }

  /** Reading a printed file patch is reading its hunks, then the remaining files. */
  lemma FilesStep(files: seq<FilePatch>)
    requires TrimmedPaths(files) && files != []
    ensures var hunks := Hunks(PrintHunks(files[0].hunks) + PrintFiles(files[1..]));
      Files(PrintFiles(files)) ==
      if hunks.Err? then Err(hunks.error)
      else FilesAfter([files[0].(hunks := hunks.value.value)], Files(hunks.value.rest))
  {
    PrintFilesStep(files);
  }

  lemma ConsAgrees(f: FilePatch, r: Result<seq<FilePatch>, SyntaxError>, files: seq<FilePatch>)
    requires files != [] && files[0] == f
    ensures FilesAfter([f], r) == Ok(files) <==> r == Ok(files[1..])
  {
    assert files == [f] + files[1..];
    if r.Ok? && [f] + r.value == files {
      assert r.value == ([f] + r.value)[1..];
    }
  }

  lemma {:induction false} FilesReadBack(files: seq<FilePatch>)
    requires TrimmedPaths(files)
    ensures Files(PrintFiles(files)) == Ok(files) <==> ReadsBack(files)
  {
    if files != [] {
      var f, next := files[0], files[1..];
      var rest := PrintFiles(next);
      FilesStep(files);
      if next != [] {
        PrintFilesStep(next);
        FileHeaderSeen(next);
      }
      if !BodiesClear(f.hunks) {
        HunksCutShort(f.hunks, rest);
      } else if !HeaderSeen(f.hunks, next) {
        HunksRunOver(f.hunks, rest);
      } else {
        HunksReadBack(f.hunks, rest);
        FilesReadBack(next);
        ConsAgrees(f, Files(rest), files);
      }
    }
  }

  /** Parsing the printed form of a nonempty patch with trimmed paths gives the patch back
      exactly when no removal looks like a file header and no file header after a hunk looks
      like a removal. */
  lemma ParsePrinted(files: seq<FilePatch>)
    requires TrimmedPaths(files) && files != []
    ensures Parse(PrintFiles(files)) == Ok(files) <==> ReadsBack(files)
  {
    FilesReadBack(files);
  }

  // ----- what was parsed -----

  /** A line that a body keeps is printed as it was. */
  lemma KeptLine(l: string)
    requires LineOf(l).Some?
    ensures PrintLine(LineOf(l).value) == l
  {
    assert l == [l[0]] + l[1..];
  }

  lemma {:induction false} ParsedBodyClear(lines: seq<string>)
    ensures Body(lines).Ok? ==> BodyClear(Body(lines).value.value)
    decreases |lines|
  {
    if lines != [] && !EndsBody(lines[0]) {
      ParsedBodyClear(lines[1..]);
      if !Skipped(lines[0]) && LineOf(lines[0]).Some? {
        KeptLine(lines[0]);
      }
    }
  }

  lemma {:induction false} ParsedHunksClear(lines: seq<string>)
    ensures Hunks(lines).Ok? ==> BodiesClear(Hunks(lines).value.value)
    decreases |lines|
  {
    if lines != [] {
      if IsHunkHeader(lines[0]) {
        ParsedBodyClear(lines[1..]);
        if ParseHeader(lines[0]).Ok? && Body(lines[1..]).Ok? {
          ParsedHunksClear(Body(lines[1..]).value.rest);
        }
      } else if !IsFileHeader(lines[0]) && !IsGitHeader(lines[0]) {
        ParsedHunksClear(lines[1..]);
      }
    }
  }

  /** Trimmed paths and no lookalike in any body. */
  predicate Tidy(files: seq<FilePatch>) {
    forall i :: 0 <= i < |files| ==>
      Trimmed(files[i].oldPath) && Trimmed(files[i].newPath) && BodiesClear(files[i].hunks)
  }

  lemma HeaderPathTrimmed(l: string)
    ensures Trimmed(HeaderPath(l))
  {
    var t := RstripNewlines(l);
    if |t| >= 4 {
      StripFacts(t[4..]);
    }
  }

  lemma {:induction false} ParsedFilesTidy(lines: seq<string>)
    ensures Files(lines).Ok? ==> Tidy(Files(lines).value)
    decreases |lines|
  {
    if lines != [] {
      if !IsFileHeader(lines[0]) {
        ParsedFilesTidy(lines[1..]);
      } else if 2 <= |lines| && "+++ " <= lines[1] && Hunks(lines[2..]).Ok? {
        ParsedHunksClear(lines[2..]);
        HeaderPathTrimmed(lines[0]);
        HeaderPathTrimmed(lines[1]);
        ParsedFilesTidy(Hunks(lines[2..]).value.rest);
      }
    }
  }

  /** After each file with hunks, the next header is seen. */
  predicate HeadersSeen(files: seq<FilePatch>) {
    files != [] ==> HeaderSeen(files[0].hunks, files[1..]) && HeadersSeen(files[1..])
  }

  lemma {:induction false} TidyReadsBack(files: seq<FilePatch>)
    requires Tidy(files)
    ensures ReadsBack(files) <==> HeadersSeen(files)
  {
    if files != [] {
      TidyReadsBack(files[1..]);
    }
  }

  /** Printing what was parsed and parsing that again gives the same patch, whatever the
      text was, exactly when after each file with hunks the next old path does not start
      with the no-newline marker. */
  lemma ReparsePrinted(lines: seq<string>, files: seq<FilePatch>)
    requires Parse(lines) == Ok(files)
    ensures Parse(PrintFiles(files)) == Parse(lines) <==> HeadersSeen(files)
  {
    ParsedFilesTidy(lines);
    TidyReadsBack(files);
    ParsePrinted(files);
  }
}
