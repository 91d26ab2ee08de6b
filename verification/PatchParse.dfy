/** Reading unified diff text, line by line, into file patches. The parser works with
    an index into the lines; each of its three loops is proved against a recursive reading
    of the lines from that index on. A hunk's lines end at the next hunk header, at a git
    header and at a file header, unless that header reads like a removed marker line; text
    between files is skipped, and a hunk header needs two ranges between its marks. */
module PatchParse {
  import opened Outcomes
  import opened Text
  import opened PatchHunks

  datatype FilePatch = FilePatch(oldPath: string, newPath: string, hunks: seq<Hunk>)

  datatype SyntaxError =
    | UnexpectedEnd
    | MissingNewHeader
    | MalformedHunkHeader
    | InvalidRange
    | InvalidMarker
    | NoFileHeaders

  /** A parsed value and the lines after it. */
  datatype Parsed<+T> = Parsed(value: T, rest: seq<string>)

  const NO_NEWLINE := "\\ No newline"

  predicate IsFileHeader(l: string) {
    "--- " <= l
  }

  predicate IsHunkHeader(l: string) {
    "@@ " <= l
  }

  predicate IsGitHeader(l: string) {
    "diff --git" <= l
  }

  /** The lines that close the body of a hunk. */
  predicate EndsBody(l: string) {
    IsHunkHeader(l) || (IsFileHeader(l) && !("--- " + NO_NEWLINE <= l)) || IsGitHeader(l)
  }

  /** The lines a hunk body ignores. */
  predicate Skipped(l: string) {
    NO_NEWLINE + " at end of file" <= l || l == ""
  }

  function LineOf(l: string): Option<HunkLine> {
    if l == "" then None
    else if l[0] == ' ' then Some(HunkLine(Context, l[1..]))
    else if l[0] == '+' then Some(HunkLine(Add, l[1..]))
    else if l[0] == '-' then Some(HunkLine(Remove, l[1..]))
    else None
  }

  function Body(lines: seq<string>): (r: Result<Parsed<seq<HunkLine>>, SyntaxError>)
    ensures r.Ok? ==> |r.value.rest| <= |lines|
    decreases |lines|
  {
    if lines == [] || EndsBody(lines[0]) then Ok(Parsed([], lines))
    else if Skipped(lines[0]) then Body(lines[1..])
    else if LineOf(lines[0]).None? then Err(InvalidMarker)
    else
      var tail := Body(lines[1..]);
      if tail.Err? then tail
      else Ok(Parsed([LineOf(lines[0]).value] + tail.value.value, tail.value.rest))
  }

  /** `-l,s` or `+l,s`, or without a count, which then is one. */
  function ParseRange(tok: string): Result<(int, int), SyntaxError> {
    if tok == "" || (tok[0] != '-' && tok[0] != '+') || tok[1..] == "" then Err(InvalidRange)
    else
      var body := tok[1..];
      var comma := IndexOf(body, ',');
      if comma < |body| then
        var a, b := ParseInt(body[..comma]), ParseInt(body[comma + 1..]);
        if a.Ok? && b.Ok? then Ok((a.value, b.value)) else Err(InvalidRange)
      else
        var a := ParseInt(body);
        if a.Ok? then Ok((a.value, 1)) else Err(InvalidRange)
  }

  /** Position of the first `@@` at or after `from`, or the length of the string. */
  function FindMark(s: string, from: nat): (n: nat)
    requires from <= |s|
    ensures from <= n <= |s|
    decreases |s| - from
  {
    if from + 1 >= |s| then |s|
    else if s[from] == '@' && s[from + 1] == '@' then from
    else FindMark(s, from + 1)
  }

  /** The two ranges between the first and the second `@@` of a stripped hunk header. */
  function ParseHeader(l: string): Result<((int, int), (int, int)), SyntaxError> {
    var header := Strip(l);
    if |header| < 2 || FindMark(header, 2) == |header| then Err(MalformedHunkHeader)
    else
      var words := Words(Strip(header[2..FindMark(header, 2)]));
      if |words| < 2 then Err(InvalidRange)
      else
        var a, b := ParseRange(words[0]), ParseRange(words[1]);
        if a.Ok? && b.Ok? then Ok((a.value, b.value)) else Err(InvalidRange)
  }

  function MakeHunk(ranges: ((int, int), (int, int)), lines: seq<HunkLine>): Hunk {
    Hunk(ranges.0.0, ranges.0.1, ranges.1.0, ranges.1.1, lines)
  }

  function Hunks(lines: seq<string>): (r: Result<Parsed<seq<Hunk>>, SyntaxError>)
    ensures r.Ok? ==> |r.value.rest| <= |lines|
    decreases |lines|
  {
    if lines == [] then Ok(Parsed([], []))
    else if IsHunkHeader(lines[0]) then
      var header := ParseHeader(lines[0]);
      if header.Err? then Err(header.error)
      else
        var body := Body(lines[1..]);
        if body.Err? then Err(body.error)
        else
          var tail := Hunks(body.value.rest);
          if tail.Err? then tail
          else Ok(Parsed([MakeHunk(header.value, body.value.value)] + tail.value.value, tail.value.rest))
    else if IsFileHeader(lines[0]) || IsGitHeader(lines[0]) then Ok(Parsed([], lines))
    else Hunks(lines[1..])
  }

  function RstripNewlines(l: string): string {
    if l != "" && l[|l| - 1] == '\n' then RstripNewlines(l[..|l| - 1]) else l
  }

  /** The path after the four characters of a file header. */
  function HeaderPath(l: string): string {
    var t := RstripNewlines(l);
    if |t| < 4 then "" else Strip(t[4..])
  }

  function Files(lines: seq<string>): Result<seq<FilePatch>, SyntaxError>
    decreases |lines|
  {
    if lines == [] then Ok([])
    else if !IsFileHeader(lines[0]) then Files(lines[1..])
    else if |lines| < 2 then Err(UnexpectedEnd)
    else if !("+++ " <= lines[1]) then Err(MissingNewHeader)
    else
      var hunks := Hunks(lines[2..]);
      if hunks.Err? then Err(hunks.error)
      else
        var tail := Files(hunks.value.rest);
        if tail.Err? then tail
        else Ok([FilePatch(HeaderPath(lines[0]), HeaderPath(lines[1]), hunks.value.value)] + tail.value)
  }

  /** What `parse_patch` returns for a list of lines. */
  function Parse(lines: seq<string>): Result<seq<FilePatch>, SyntaxError> {
    var files := Files(lines);
    if files == Ok([]) then Err(NoFileHeaders) else files
  }

  // ----- the parser's loops -----

  type ParsedList<T> = Result<Parsed<seq<T>>, SyntaxError>

  /** A parse result with the items read before it put in front. */
  function After<T>(before: seq<T>, r: ParsedList<T>): ParsedList<T> {
    if r.Err? then r else Ok(Parsed(before + r.value.value, r.value.rest))
  }

  lemma AfterNothing<T>(r: ParsedList<T>)
    ensures After([], r) == r
  {
    if r.Ok? {
      assert [] + r.value.value == r.value.value;
    }
  }

  lemma AfterTwice<T>(a: seq<T>, b: seq<T>, r: ParsedList<T>)
    ensures After(a, After(b, r)) == After(a + b, r)
  {
    if r.Ok? {
      assert a + (b + r.value.value) == a + b + r.value.value;
    }
  }

  method ParseBody(lines: seq<string>, start: nat) returns (r: Result<seq<HunkLine>, SyntaxError>, i: nat)
    requires start <= |lines|
    ensures start <= i <= |lines|
    ensures Body(lines[start..]) == if r.Err? then Err(r.error) else Ok(Parsed(r.value, lines[i..]))
  {
    i := start;
    var hunkLines: seq<HunkLine> := [];
    AfterNothing(Body(lines[start..]));
    while i < |lines|
      invariant start <= i <= |lines|
      invariant Body(lines[start..]) == After(hunkLines, Body(lines[i..]))
    {
      var hl := lines[i];
      assert lines[i..][0] == hl && lines[i..][1..] == lines[i + 1..];
      if EndsBody(hl) {
        break;
      }
      if Skipped(hl) {
        i := i + 1;
        continue;
      }
      var parsed := LineOf(hl);
      if parsed.None? {
        return Err(InvalidMarker), i;
      }
      AfterTwice(hunkLines, [parsed.value], Body(lines[i + 1..]));
      hunkLines := hunkLines + [parsed.value];
      i := i + 1;
    }
    assert hunkLines + [] == hunkLines;
    return Ok(hunkLines), i;
  }

  /** One hunk: its header line and its body. */
  method ParseHunk(lines: seq<string>, i: nat) returns (r: Result<Hunk, SyntaxError>, next: nat)
    requires i < |lines| && IsHunkHeader(lines[i])
    ensures i < next <= |lines|
    ensures r.Err? ==> Hunks(lines[i..]) == Err(r.error)
    ensures r.Ok? ==> Hunks(lines[i..]) == After([r.value], Hunks(lines[next..]))
  {
    assert lines[i..][0] == lines[i] && lines[i..][1..] == lines[i + 1..];
    var header := ParseHeader(lines[i]);
    if header.Err? {
      return Err(header.error), i + 1;
    }
    var body;
    body, next := ParseBody(lines, i + 1);
    if body.Err? {
      return Err(body.error), next;
    }
    return Ok(MakeHunk(header.value, body.value)), next;
  }

  /** One round of the hunk loop at line `i`: a hunk is read, a line that is no header is
      skipped, and a header of the next file stops the loop. */
  method ReadOne(lines: seq<string>, i: nat) returns (stop: bool, r: Result<seq<Hunk>, SyntaxError>, next: nat)
    requires i < |lines|
    ensures r.Err? ==> Hunks(lines[i..]) == Err(r.error)
    ensures r.Ok? && stop ==> Hunks(lines[i..]) == Ok(Parsed([], lines[i..]))
    ensures r.Ok? && !stop ==> i < next <= |lines| && Hunks(lines[i..]) == After(r.value, Hunks(lines[next..]))
  {
    assert lines[i..][0] == lines[i] && lines[i..][1..] == lines[i + 1..];
    if IsHunkHeader(lines[i]) {
      var h;
      h, next := ParseHunk(lines, i);
      return false, if h.Err? then Err(h.error) else Ok([h.value]), next;
    }
    AfterNothing(Hunks(lines[i + 1..]));
    return IsFileHeader(lines[i]) || IsGitHeader(lines[i]), Ok([]), i + 1;
  }

  method ParseHunks(lines: seq<string>, start: nat) returns (r: Result<seq<Hunk>, SyntaxError>, i: nat)
    requires start <= |lines|
    ensures start <= i <= |lines|
    ensures Hunks(lines[start..]) == if r.Err? then Err(r.error) else Ok(Parsed(r.value, lines[i..]))
  {
    i := start;
    var hunks: seq<Hunk> := [];
    AfterNothing(Hunks(lines[start..]));
    while i < |lines|
      invariant start <= i <= |lines|
      invariant Hunks(lines[start..]) == After(hunks, Hunks(lines[i..]))
      decreases |lines| - i
    {
      var stop, one, next := ReadOne(lines, i);
      if one.Err? {
        return Err(one.error), i;
      }
      if stop {
        break;
      }
      AfterTwice(hunks, one.value, Hunks(lines[next..]));
      hunks := hunks + one.value;
      i := next;
    }
    assert hunks + [] == hunks;
    return Ok(hunks), i;
  }

  function FilesAfter(before: seq<FilePatch>, r: Result<seq<FilePatch>, SyntaxError>): Result<seq<FilePatch>, SyntaxError> {
    if r.Err? then r else Ok(before + r.value)
  }

  lemma FilesAfterTwice(a: seq<FilePatch>, b: seq<FilePatch>, r: Result<seq<FilePatch>, SyntaxError>)
    ensures FilesAfter(a, FilesAfter(b, r)) == FilesAfter(a + b, r)
  {
    if r.Ok? {
      assert a + (b + r.value) == a + b + r.value;
    }
  }

  /** The outer loop. The parser as a whole computes `Parse`. */
  method ParsePatch(lines: seq<string>) returns (r: Result<seq<FilePatch>, SyntaxError>)
    ensures r == Parse(lines)
  {
    var i: nat := 0;
    var files: seq<FilePatch> := [];
    assert lines[0..] == lines;
    assert FilesAfter([], Files(lines)) == Files(lines) by {
      if Files(lines).Ok? {
        assert [] + Files(lines).value == Files(lines).value;
      }
    }
    while i < |lines|
      invariant i <= |lines|
      invariant Files(lines) == FilesAfter(files, Files(lines[i..]))
      decreases |lines| - i
    {
      var line := lines[i];
      assert lines[i..][0] == line && lines[i..][1..] == lines[i + 1..];
      if !IsFileHeader(line) {
        i := i + 1;
        continue;
      }
      if i + 1 >= |lines| {
        return Err(UnexpectedEnd);
      }
      assert lines[i..][1] == lines[i + 1] && lines[i..][2..] == lines[i + 2..];
      if !("+++ " <= lines[i + 1]) {
        return Err(MissingNewHeader);
      }
      var hunks, next := ParseHunks(lines, i + 2);
      if hunks.Err? {
        return Err(hunks.error);
      }
      var file := FilePatch(HeaderPath(line), HeaderPath(lines[i + 1]), hunks.value);
      assert Files(lines[i..]) == FilesAfter([file], Files(lines[next..]));
      FilesAfterTwice(files, [file], Files(lines[next..]));
      files := files + [file];
      i := next;
    }
    assert files + [] == files;
    if files == [] {
      return Err(NoFileHeaders);
    }
    return Ok(files);
  }
}
