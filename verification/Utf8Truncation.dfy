/** Cutting a text to a number of UTF-8 bytes (RFC 3629 section 3) by cutting its encoding
    and decoding what is left with errors ignored. */
module Utf8Truncation {
  import opened Outcomes

  /** A code point, as a Python string holds it: surrogates are possible. */
  type CodePoint = c: int | 0 <= c < 0x11_0000

  type Byte = b: int | 0 <= b < 0x100

  predicate IsSurrogate(c: CodePoint) {
    0xD800 <= c < 0xE000
  }

  /** A text that can be encoded. */
  ghost predicate Encodable(text: seq<CodePoint>) {
    forall i :: 0 <= i < |text| ==> !IsSurrogate(text[i])
  }

  function EncodeOne(c: CodePoint): (r: seq<Byte>)
    ensures 1 <= |r| <= 4
  {
    if c < 0x80 then [c]
    else if c < 0x800 then [0xC0 + c / 0x40, 0x80 + c % 0x40]
    else if c < 0x1_0000 then [0xE0 + c / 0x1000, 0x80 + c / 0x40 % 0x40, 0x80 + c % 0x40]
    else [0xF0 + c / 0x4_0000, 0x80 + c / 0x1000 % 0x40, 0x80 + c / 0x40 % 0x40, 0x80 + c % 0x40]
  }

  /** Encodings that RFC 3629 section 7 and its table fix: the bounds of each length. */
  lemma KnownEncodings()
    ensures EncodeOne(0) == [0x00] && EncodeOne(0x7F) == [0x7F] && EncodeOne(0x41) == [0x41]
    ensures EncodeOne(0x80) == [0xC2, 0x80] && EncodeOne(0x7FF) == [0xDF, 0xBF] && EncodeOne(0x391) == [0xCE, 0x91]
    ensures EncodeOne(0x800) == [0xE0, 0xA0, 0x80] && EncodeOne(0xFFFF) == [0xEF, 0xBF, 0xBF]
    ensures EncodeOne(0xD55C) == [0xED, 0x95, 0x9C]
    ensures EncodeOne(0x1_0000) == [0xF0, 0x90, 0x80, 0x80] && EncodeOne(0x10_FFFF) == [0xF4, 0x8F, 0xBF, 0xBF]
    ensures EncodeOne(0x2_33B4) == [0xF0, 0xA3, 0x8E, 0xB4]
  {
  }

  function EncodeAll(text: seq<CodePoint>): seq<Byte> {
    if text == [] then [] else EncodeOne(text[0]) + EncodeAll(text[1..])
  }

  /** How many bytes the sequence that starts with this byte has; 0 when none starts so. */
  function Need(first: Byte): nat {
    if first < 0x80 then 1
    else if first < 0xC2 then 0
    else if first < 0xE0 then 2
    else if first < 0xF0 then 3
    else if first < 0xF5 then 4
    else 0
  }

  predicate IsContinuation(b: Byte) {
    0x80 <= b < 0xC0
  }

  /** The second byte rules out overlong forms, surrogates and values past 0x10FFFF. */
  predicate SecondFits(first: Byte, second: Byte) {
    && IsContinuation(second)
    && (first == 0xE0 ==> 0xA0 <= second)
    && (first == 0xED ==> second < 0xA0)
    && (first == 0xF0 ==> 0x90 <= second)
    && (first == 0xF4 ==> second < 0x90)
  }

  /** The length of the longest start of `b` that starts a well-formed sequence, or 1. */
  function Run(b: seq<Byte>): (k: nat)
    requires b != []
    ensures 1 <= k <= |b|
  {
    var need := Need(b[0]);
    if need < 2 || |b| < 2 || !SecondFits(b[0], b[1]) then 1
    else if need < 3 || |b| < 3 || !IsContinuation(b[2]) then 2
    else if need < 4 || |b| < 4 || !IsContinuation(b[3]) then 3
    else 4
  }

  /** The six bits a continuation byte carries. */
  function Payload(b: Byte): int {
    b as int - 0x80
  }

  /** The code point of the complete sequence at the start of `b`. */
  function Value(b: seq<Byte>): (c: CodePoint)
    requires b != [] && Run(b) == Need(b[0])
    ensures !IsSurrogate(c)
  {
    if b[0] < 0x80 then b[0]
    else if b[0] < 0xE0 then (b[0] as int - 0xC0) * 0x40 + Payload(b[1])
    else if b[0] < 0xF0 then (b[0] as int - 0xE0) * 0x1000 + Payload(b[1]) * 0x40 + Payload(b[2])
    else (b[0] as int - 0xF0) * 0x4_0000 + Payload(b[1]) * 0x1000 + Payload(b[2]) * 0x40 + Payload(b[3])
  }

  /** `bytes.decode("utf-8", errors="ignore")`: an ill-formed or unfinished start is
      skipped up to the first byte that does not continue it. */
  function Decode(b: seq<Byte>): seq<CodePoint> {
    if b == [] then []
    else if Run(b) == Need(b[0]) then [Value(b)] + Decode(b[Run(b)..])
    else Decode(b[Run(b)..])
  }

  lemma EncodedStart(c: CodePoint, b: seq<Byte>)
    requires !IsSurrogate(c) && EncodeOne(c) <= b
    ensures Run(b) == Need(b[0]) == |EncodeOne(c)|
    ensures Value(b) == c
  {
    var e := EncodeOne(c);
    EncodedBytes(c);
    assert forall i :: 0 <= i < |e| ==> b[i] == e[i];
    assert Run(b) == |e|;
    Digits64(c);
  }

  /** A code point is its six-bit digits put together. */
  lemma Digits64(c: CodePoint)
    ensures c == c / 0x40 * 0x40 + c % 0x40
    ensures c == c / 0x1000 * 0x1000 + c / 0x40 % 0x40 * 0x40 + c % 0x40
    ensures c == c / 0x4_0000 * 0x4_0000 + c / 0x1000 % 0x40 * 0x1000 + c / 0x40 % 0x40 * 0x40 + c % 0x40
  {
    assert c / 0x40 == c / 0x1000 * 0x40 + c / 0x40 % 0x40;
    assert c / 0x1000 == c / 0x4_0000 * 0x40 + c / 0x1000 % 0x40;
  }

  /** The first byte says how long the sequence is and the rest fit it. */
  lemma EncodedBytes(c: CodePoint)
    requires !IsSurrogate(c)
    ensures var e := EncodeOne(c);
      && Need(e[0]) == |e|
      && (|e| >= 2 ==> SecondFits(e[0], e[1]))
      && (forall i :: 2 <= i < |e| ==> IsContinuation(e[i]))
  {
  }

  lemma DecodeFirst(c: CodePoint, rest: seq<Byte>)
    requires !IsSurrogate(c)
    ensures Decode(EncodeOne(c) + rest) == [c] + Decode(rest)
  {
    var b := EncodeOne(c) + rest;
    EncodedStart(c, b);
    assert b[|EncodeOne(c)|..] == rest;
  }

  /** An unfinished character leaves nothing. */
  lemma DecodeUnfinished(c: CodePoint, n: nat)
    requires !IsSurrogate(c) && n < |EncodeOne(c)|
    ensures Decode(EncodeOne(c)[..n]) == []
  {
    if n > 0 {
      var b := EncodeOne(c)[..n];
      EncodedBytes(c);
      assert forall i :: 0 <= i < n ==> b[i] == EncodeOne(c)[i];
      assert Run(b) == n;
      assert b[n..] == [];
    }
  }

  /** Decoding is a left inverse of encoding. */
  lemma {:induction false} DecodeEncoded(text: seq<CodePoint>)
    requires Encodable(text)
    ensures Decode(EncodeAll(text)) == text
  {
    if text != [] {
      DecodeFirst(text[0], EncodeAll(text[1..]));
      DecodeEncoded(text[1..]);
    }
  }

  /** `r` is the longest start of the text that encodes to at most `budget` bytes. */
  ghost predicate LongestFitting(text: seq<CodePoint>, r: seq<CodePoint>, budget: nat) {
    && r <= text
    && |EncodeAll(r)| <= budget
    && forall k :: |r| < k <= |text| ==> |EncodeAll(text[..k])| > budget
  }

  lemma {:induction false} EncodedPrefix(text: seq<CodePoint>, k: nat)
    requires k <= |text|
    ensures EncodeAll(text[..k]) <= EncodeAll(text)
  {
    if k > 0 {
      EncodedPrefix(text[1..], k - 1);
      assert text[..k][1..] == text[1..][..k - 1];
    }
  }

  /** Cutting an encoding anywhere and decoding it gives the longest start that fits. */
  lemma {:induction false} CutIsLongestFitting(text: seq<CodePoint>, n: nat)
    requires Encodable(text) && n <= |EncodeAll(text)|
    ensures LongestFitting(text, Decode(EncodeAll(text)[..n]), n)
  {
    if text == [] {
      assert EncodeAll(text)[..n] == [];
    } else {
      var one := EncodeOne(text[0]);
      var rest := EncodeAll(text[1..]);
      if n < |one| {
        DecodeUnfinished(text[0], n);
        assert EncodeAll(text)[..n] == one[..n];
        forall k | 0 < k <= |text| ensures |EncodeAll(text[..k])| > n {
          assert text[..k][0] == text[0];
        }
      } else {
        var m := n - |one|;
        CutIsLongestFitting(text[1..], m);
        var tail := Decode(rest[..m]);
        DecodeFirst(text[0], rest[..m]);
        assert EncodeAll(text)[..n] == one + rest[..m];
        var r := [text[0]] + tail;
        assert r[1..] == tail;
        forall k | |r| < k <= |text| ensures |EncodeAll(text[..k])| > n {
          assert text[..k][1..] == text[1..][..k - 1];
        }
      }
    }
  }

  /** The longest fitting start is unique. */
  lemma LongestFittingUnique(text: seq<CodePoint>, r: seq<CodePoint>, s: seq<CodePoint>, budget: nat)
    requires LongestFitting(text, r, budget) && LongestFitting(text, s, budget)
    ensures r == s
  {
    assert r == text[..|r|] && s == text[..|s|];
  }

  datatype EncodeError = SurrogateNotAllowed

  method Encode(text: seq<CodePoint>) returns (r: Result<seq<Byte>, EncodeError>)
    ensures r.Ok? <==> Encodable(text)
    ensures r.Ok? ==> r.value == EncodeAll(text)
  {
    var data: seq<Byte> := [];
    for i := 0 to |text|
      invariant Encodable(text[..i])
      invariant data == EncodeAll(text[..i])
    {
      if IsSurrogate(text[i]) {
        return Err(SurrogateNotAllowed);
      }
      EncodeSnoc(text[..i], text[i]);
      assert text[..i + 1] == text[..i] + [text[i]];
      data := data + EncodeOne(text[i]);
    }
    assert text[..|text|] == text;
    return Ok(data);
  }

  lemma Associates(a: seq<Byte>, b: seq<Byte>, c: seq<Byte>)
    ensures a + (b + c) == (a + b) + c
  {
  }

  lemma {:induction false} EncodeSnoc(text: seq<CodePoint>, c: CodePoint)
    ensures EncodeAll(text + [c]) == EncodeAll(text) + EncodeOne(c)
  {
    if text == [] {
      assert text + [c] == [c];
    } else {
      EncodeSnoc(text[1..], c);
      assert (text + [c])[1..] == text[1..] + [c] && (text + [c])[0] == text[0];
      Associates(EncodeOne(text[0]), EncodeAll(text[1..]), EncodeOne(c));
    }
  }

  /** How many bytes are kept: a negative limit counts back from the end, as a slice does. */
  function Budget(length: nat, maxBytes: int): nat {
    if maxBytes >= 0 then maxBytes
    else if length + maxBytes >= 0 then length + maxBytes
    else 0
  }

  /** Fails exactly on a text with a surrogate, and else keeps the longest start that fits. */
  method Truncate(text: seq<CodePoint>, maxBytes: int) returns (r: Result<seq<CodePoint>, EncodeError>)
    ensures r.Ok? <==> Encodable(text)
    ensures r.Ok? ==> LongestFitting(text, r.value, Budget(|EncodeAll(text)|, maxBytes))
    ensures r.Ok? && maxBytes >= 0 ==>
      && r.value <= text && |EncodeAll(r.value)| <= maxBytes
      && forall k :: |r.value| < k <= |text| ==> |EncodeAll(text[..k])| > maxBytes
    ensures r.Ok? && maxBytes < 0 ==>
      var kept := if |EncodeAll(text)| + maxBytes < 0 then 0 else |EncodeAll(text)| + maxBytes;
      && r.value <= text && |EncodeAll(r.value)| <= kept
      && forall k :: |r.value| < k <= |text| ==> |EncodeAll(text[..k])| > kept
  {
    var encoded := Encode(text);
    if encoded.Err? {
      return Err(encoded.error);
    }
    var data := encoded.value;
    if |data| <= maxBytes {
      return Ok(text);
    }
    var n := Budget(|data|, maxBytes);
    CutIsLongestFitting(text, n);
    return Ok(Decode(data[..n]));
  }
}
