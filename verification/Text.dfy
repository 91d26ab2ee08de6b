/** The few string operations the components share: stripping and splitting at
    blanks, decimal numbers and finding a character. The blanks are those that `str.strip`
    and `str.split` of Python know. What the components use of them: stripping keeps a
    nonblank string nonblank and leaves nothing to strip, a printed number reads back as
    itself, and two words with a space between them split into just these two. */
module Text {
  import opened Outcomes

  /** The characters that Python's `str.strip` and `str.split` treat as blank. */
  predicate IsWhitespace(c: char) {
    var n := c as int;
    || 0x09 <= n <= 0x0d || 0x1c <= n <= 0x20 || n == 0x85 || n == 0xa0 || n == 0x1680
    || 0x2000 <= n <= 0x200a || n == 0x2028 || n == 0x2029 || n == 0x202f || n == 0x205f || n == 0x3000
  }

  function StripLeft(s: string): string {
    if s != [] && IsWhitespace(s[0]) then StripLeft(s[1..]) else s
  }

  function StripRight(s: string): string {
    if s != [] && IsWhitespace(s[|s| - 1]) then StripRight(s[..|s| - 1]) else s
  }

  /** `s.strip()` */
  function Strip(s: string): string {
    StripRight(StripLeft(s))
  }

  /** `s.strip()` is nonempty. */
  predicate NonBlank(s: string) {
    exists i :: 0 <= i < |s| && !IsWhitespace(s[i])
  }

  /** Nothing to strip at either end. */
  predicate Trimmed(s: string) {
    s == [] || (!IsWhitespace(s[0]) && !IsWhitespace(s[|s| - 1]))
  }

  lemma {:induction false} StripLeftNonBlank(s: string)
    ensures NonBlank(StripLeft(s)) <==> NonBlank(s)
    ensures StripLeft(s) == [] || !IsWhitespace(StripLeft(s)[0])
  {
    if s != [] && IsWhitespace(s[0]) {
      StripLeftNonBlank(s[1..]);
      assert NonBlank(s) ==> NonBlank(s[1..]) by {
        if NonBlank(s) {
          var i :| 0 <= i < |s| && !IsWhitespace(s[i]);
          assert s[1..][i - 1] == s[i];
        }
      }
      assert NonBlank(s[1..]) ==> NonBlank(s) by {
        if NonBlank(s[1..]) {
          var i :| 0 <= i < |s[1..]| && !IsWhitespace(s[1..][i]);
          assert s[i + 1] == s[1..][i];
        }
      }
    }
  }

  lemma {:induction false} StripRightNonBlank(s: string)
    ensures NonBlank(StripRight(s)) <==> NonBlank(s)
    ensures StripRight(s) == [] || !IsWhitespace(StripRight(s)[|StripRight(s)| - 1])
    ensures StripRight(s) <= s
  {
    if s != [] && IsWhitespace(s[|s| - 1]) {
      var rest := s[..|s| - 1];
      StripRightNonBlank(rest);
      assert NonBlank(s) ==> NonBlank(rest) by {
        if NonBlank(s) {
          var i :| 0 <= i < |s| && !IsWhitespace(s[i]);
          assert rest[i] == s[i];
        }
      }
      assert NonBlank(rest) ==> NonBlank(s) by {
        if NonBlank(rest) {
          var i :| 0 <= i < |rest| && !IsWhitespace(rest[i]);
          assert s[i] == rest[i];
        }
      }
    }
  }

  predicate Blank(s: string) {
    forall i :: 0 <= i < |s| ==> IsWhitespace(s[i])
  }

  /** Stripping takes blanks off both ends and nothing else. */
  lemma StripDecomposes(s: string) returns (before: string, after: string)
    ensures s == before + Strip(s) + after && Blank(before) && Blank(after)
  {
    before := StripLeftDecomposes(s);
    after := StripRightDecomposes(StripLeft(s));
  }

  lemma {:induction false} StripLeftDecomposes(s: string) returns (before: string)
    ensures s == before + StripLeft(s) && Blank(before)
  {
    before := "";
    if s != [] && IsWhitespace(s[0]) {
      before := StripLeftDecomposes(s[1..]);
      before := [s[0]] + before;
    }
  }

  lemma {:induction false} StripRightDecomposes(s: string) returns (after: string)
    ensures s == StripRight(s) + after && Blank(after)
  {
    after := "";
    if s != [] && IsWhitespace(s[|s| - 1]) {
      var rest := s[..|s| - 1];
      after := StripRightDecomposes(rest);
      assert s == rest + [s[|s| - 1]];
      after := after + [s[|s| - 1]];
    }
  }

  /** Stripping keeps a nonblank string nonblank and leaves nothing more to strip. */
  lemma StripFacts(s: string)
    ensures NonBlank(Strip(s)) <==> NonBlank(s)
    ensures Trimmed(Strip(s))
  {
    StripLeftNonBlank(s);
    StripRightNonBlank(StripLeft(s));
  }

  lemma StripTrimmed(s: string)
    requires Trimmed(s)
    ensures Strip(s) == s
  {
  }

  // ----- decimal numerals -----

  predicate IsDigit(c: char) {
    '0' <= c <= '9'
  }

  function Digit(d: nat): (c: char)
    requires d < 10
    ensures IsDigit(c) && c as int - '0' as int == d
  {
    ('0' as int + d) as char
  }

  /** `str(n)` */
  function Decimal(n: nat): (s: string)
    ensures s != [] && forall i :: 0 <= i < |s| ==> IsDigit(s[i])
  {
    if n < 10 then [Digit(n)] else Decimal(n / 10) + [Digit(n % 10)]
  }

  function Value(s: string): nat
    requires forall i :: 0 <= i < |s| ==> IsDigit(s[i])
  {
    if s == [] then 0
    else
      assert IsDigit(s[|s| - 1]);
      Value(s[..|s| - 1]) * 10 + (s[|s| - 1] as int - '0' as int)
  }

  /** Reading a printed number gives the number back. */
  lemma {:induction false} DecimalValue(n: nat)
    ensures Value(Decimal(n)) == n
  {
    if n >= 10 {
      DecimalValue(n / 10);
      assert Decimal(n)[..|Decimal(n)| - 1] == Decimal(n / 10);
    } else {
      assert Decimal(n)[..0] == [];
    }
  }

  lemma DecimalInjective(m: nat, n: nat)
    requires Decimal(m) == Decimal(n)
    ensures m == n
  {
    DecimalValue(m);
    DecimalValue(n);
  }

  /** `int(s)` for an optional sign and ASCII digits. */
  function ParseInt(s: string): (r: Result<int, ()>) {
    var t := Strip(s);
    var signed := t != [] && (t[0] == '-' || t[0] == '+');
    SignedValue(t != [] && t[0] == '-', if signed then t[1..] else t)
  }

  function SignedValue(negative: bool, digits: string): (r: Result<int, ()>) {
    if digits == [] || exists i :: 0 <= i < |digits| && !IsDigit(digits[i]) then Err(())
    else
      var v: int := Value(digits);
      Ok(if negative then -v else v)
  }

  lemma SignedDecimal(n: int)
    ensures SignedValue(n < 0, Decimal(if n < 0 then -n else n)) == Ok(n)
  {
    DecimalValue(if n < 0 then -n else n);
  }

  lemma ParseDigits(digits: string)
    requires digits != [] && forall i :: 0 <= i < |digits| ==> IsDigit(digits[i])
    ensures ParseInt(digits) == SignedValue(false, digits)
    ensures ParseInt("-" + digits) == SignedValue(true, digits)
  {
    assert IsDigit(digits[0]) && IsDigit(digits[|digits| - 1]);
    StripTrimmed(digits);
    var s := "-" + digits;
    assert s[0] == '-' && s[1..] == digits && s[|s| - 1] == digits[|digits| - 1];
    StripTrimmed(s);
  }

  /** `str(n)` for any integer. */
  function Printed(n: int): (s: string)
    ensures s != []
  {
    if n < 0 then "-" + Decimal(-n) else Decimal(n)
  }

  /** Digits and minus signs. */
  lemma PrintedCharacters(n: int)
    ensures forall i :: 0 <= i < |Printed(n)| ==> IsDigit(Printed(n)[i]) || Printed(n)[i] == '-'
  {
    if n < 0 {
      forall i | 0 < i < |Printed(n)| ensures IsDigit(Printed(n)[i]) {
        assert Printed(n)[i] == Decimal(-n)[i - 1];
      }
    }
  }

  /** Reading a printed integer gives it back. */
  lemma ParsePrintedInt(n: int)
    ensures ParseInt(Printed(n)) == Ok(n)
  {
    ParseDigits(Decimal(if n < 0 then -n else n));
    SignedDecimal(n);
  }

  function WordLength(s: string): (n: nat)
    ensures n <= |s|
  {
    if s == [] || IsWhitespace(s[0]) then 0 else 1 + WordLength(s[1..])
  }

  /** `s.split()` */
  function Words(s: string): seq<string>
    decreases |s|
  {
    var t := StripLeft(s);
    StripLeftShorter(s);
    if t == [] then []
    else
      StripLeftNonBlank(s);
      [t[..WordLength(t)]] + Words(t[WordLength(t)..])
  }

  lemma {:induction false} StripLeftShorter(s: string)
    ensures |StripLeft(s)| <= |s|
  {
    if s != [] && IsWhitespace(s[0]) {
      StripLeftShorter(s[1..]);
    }
  }

  lemma {:induction false} WordLengthOf(a: string, b: string)
    requires forall i :: 0 <= i < |a| ==> !IsWhitespace(a[i])
    requires b == [] || IsWhitespace(b[0])
    ensures WordLength(a + b) == |a|
  {
    if a == [] {
      assert a + b == b;
    } else {
      assert (a + b)[1..] == a[1..] + b;
      WordLengthOf(a[1..], b);
    }
  }

  /** A word and what follows it. */
  lemma FirstWord(a: string, rest: string)
    requires a != [] && forall i :: 0 <= i < |a| ==> !IsWhitespace(a[i])
    requires rest == [] || IsWhitespace(rest[0])
    ensures Words(a + rest) == [a] + Words(rest)
  {
    var s := a + rest;
    WordLengthOf(a, rest);
    assert s[0] == a[0];
    assert s[..|a|] == a && s[|a|..] == rest;
  }

  /** A space in front does not matter. */
  lemma SpaceBefore(b: string)
    ensures Words(" " + b) == Words(b)
  {
    assert (" " + b)[1..] == b;
    assert StripLeft(" " + b) == StripLeft(b);
  }

  /** Two words with one space between them split into just these two. */
  lemma TwoWords(a: string, b: string)
    requires a != [] && b != []
    requires forall i :: 0 <= i < |a| ==> !IsWhitespace(a[i])
    requires forall i :: 0 <= i < |b| ==> !IsWhitespace(b[i])
    ensures Words(a + " " + b) == [a, b]
  {
    assert a + " " + b == a + (" " + b);
    FirstWord(a, " " + b);
    SpaceBefore(b);
    assert b + [] == b;
    FirstWord(b, []);
    NoWords();
  }

  lemma NoWords()
    ensures Words([]) == []
  {
  }

  /** Position of the first `c` in `s`, or the length of `s`. */
  function IndexOf(s: string, c: char): (n: nat)
    ensures n <= |s|
    ensures n < |s| ==> s[n] == c
    ensures forall i :: 0 <= i < n ==> s[i] != c
  {
    if s == [] || s[0] == c then 0 else 1 + IndexOf(s[1..], c)
  }
}
