/**
 * The pieces of Ruby's String and Regexp behaviour that the analyzer relies on:
 * the `\d` and `\s` character classes, String#strip, String#to_i on a run of
 * digits, and String#split with a single-character separator.
 * Strings are byte strings: one char per byte.
 */
module RubyText {

  /** `\d` in a Ruby regular expression: ASCII digits only. */
  predicate IsDigit(c: char) { '0' <= c <= '9' }

  /** `\s` in a Ruby regular expression: space, tab, line feed, carriage return, vertical tab, form feed. */
  predicate IsSpace(c: char) {
    c == ' ' || c == '\t' || c == '\n' || c == '\r' || c == '\U{B}' || c == '\U{C}'
  }

  /** The characters String#strip removes at both ends: `\s` and NUL. */
  predicate IsStripSpace(c: char) { IsSpace(c) || c == '\0' }

  predicate AllDigits(s: string) { forall k :: 0 <= k < |s| ==> IsDigit(s[k]) }

  predicate StartsWith(s: string, prefix: string) { |prefix| <= |s| && s[..|prefix|] == prefix }

  /** t occurs in s as a contiguous piece. */
  ghost predicate IsSlice(t: string, s: string) {
    exists i, j :: 0 <= i <= j <= |s| && t == s[i..j]
  }

  lemma SliceOfSlice(t: string, s: string, u: string, i: nat, j: nat)
    requires IsSlice(s, u)
    requires i <= j <= |s| && t == s[i..j]
    ensures IsSlice(t, u)
  {
    var a, b :| 0 <= a <= b <= |u| && s == u[a..b];
    assert |s| == b - a;
    assert forall k :: 0 <= k < j - i ==> t[k] == s[i + k] == u[a + i + k];
    assert t == u[a + i..a + j];
  }

  /** Length of the longest prefix of s whose characters all satisfy p. */
  function LeadingRun(s: string, p: char -> bool): (n: nat)
    ensures n <= |s|
    ensures forall k :: 0 <= k < n ==> p(s[k])
    ensures n < |s| ==> !p(s[n])
  {
    if |s| > 0 && p(s[0]) then 1 + LeadingRun(s[1..], p) else 0
  }

  /** Length of the longest suffix of s whose characters all satisfy p. */
  function TrailingRun(s: string, p: char -> bool): (n: nat)
    ensures n <= |s|
    ensures forall k :: |s| - n <= k < |s| ==> p(s[k])
    ensures n < |s| ==> !p(s[|s| - 1 - n])
  {
    if |s| > 0 && p(s[|s| - 1]) then 1 + TrailingRun(s[..|s| - 1], p) else 0
  }

  /** No strip-space at either end. */
  predicate IsStripped(s: string) {
    s == [] || (!IsStripSpace(s[0]) && !IsStripSpace(s[|s| - 1]))
  }

  /** String#strip. */
  function Strip(s: string): (r: string)
    ensures IsStripped(r) && IsSlice(r, s)
    ensures IsStripped(s) ==> r == s
  {
    var a := LeadingRun(s, IsStripSpace);
    var t := s[a..];
    var r := t[..|t| - TrailingRun(t, IsStripSpace)];
    assert r == s[a..a + |r|];
    assert IsStripped(s) && s != [] ==> a == 0 && |r| == |s|;
    r
  }

  /** r sits in s at position a, with only lead characters before it and only trail characters after it. */
  predicate FramedAt(s: string, r: string, a: int, lead: char -> bool, trail: char -> bool) {
    && 0 <= a <= |s| - |r| && r == s[a..a + |r|]
    && (forall k :: 0 <= k < a ==> lead(s[k]))
    && (forall k :: a + |r| <= k < |s| ==> trail(s[k]))
  }

  /** Where Strip's result sits in s: after the leading run of strip-space, followed only by strip-space. */
  lemma StripAt(s: string)
    ensures FramedAt(s, Strip(s), LeadingRun(s, IsStripSpace), IsStripSpace, IsStripSpace)
  {
    var a := LeadingRun(s, IsStripSpace);
    var t := s[a..];
    var n := TrailingRun(t, IsStripSpace);
    assert Strip(s) == t[..|t| - n];
    FrameOfRuns(s, a, n, IsStripSpace);
  }

  /** Cutting a leading run of length a and then a trailing run of length n leaves a framed middle. */
  lemma FrameOfRuns(s: string, a: nat, n: nat, p: char -> bool)
    requires a <= |s| && n <= |s| - a
    requires forall k :: 0 <= k < a ==> p(s[k])
    requires forall k :: |s[a..]| - n <= k < |s[a..]| ==> p(s[a..][k])
    ensures FramedAt(s, s[a..][..|s| - a - n], a, p, p)
  {
    var t := s[a..];
    var r := t[..|t| - n];
    assert r == s[a..a + |r|];
    forall k | a + |r| <= k < |s| ensures p(s[k]) {
      assert s[k] == t[k - a];
    }
  }

  /** Where Strip's result ends: at or after the start of the trailing strip-space run, and exactly there when it is non-empty. */
  lemma StripEnd(s: string)
    ensures var e := LeadingRun(s, IsStripSpace) + |Strip(s)|;
      && |s| - TrailingRun(s, IsStripSpace) <= e
      && (Strip(s) != [] ==> |s| - TrailingRun(s, IsStripSpace) == e)
  {
    StripAt(s);
    var r := Strip(s);
    var e := LeadingRun(s, IsStripSpace) + |r|;
    if r != [] {
      assert s[e - 1] == r[|r| - 1];
    }
  }

  /** String#strip removes a run of strip-space at each end and nothing else. */
  lemma StripRemovesEnds(s: string)
    ensures exists a :: FramedAt(s, Strip(s), a, IsStripSpace, IsStripSpace)
  {
    StripAt(s);
  }

  function DigitValue(c: char): nat requires IsDigit(c) { c as nat - '0' as nat }

  function DigitChar(d: nat): (c: char)
    requires d < 10
    ensures IsDigit(c) && DigitValue(c) == d
  {
    ('0' as nat + d) as char
  }

  /** String#to_i of a string made of digits only (leading zeros allowed). */
  function DecimalValue(s: string): nat
    requires AllDigits(s)
  {
    if s == [] then 0 else 10 * DecimalValue(s[..|s| - 1]) + DigitValue(s[|s| - 1])
  }

  /** Integer#to_s for a natural number: the shortest decimal numeral. */
  function Decimal(n: nat): (s: string)
    ensures |s| > 0 && AllDigits(s)
    ensures s[0] == '0' ==> n == 0
  {
    if n < 10 then [DigitChar(n)] else Decimal(n / 10) + [DigitChar(n % 10)]
  }

  lemma {:induction false} DecimalRoundTrip(n: nat)
    ensures DecimalValue(Decimal(n)) == n
  {
    if n >= 10 {
      var s := Decimal(n);
      assert s[..|s| - 1] == Decimal(n / 10);
      DecimalRoundTrip(n / 10);
    }
  }

  /** Index of the first occurrence of c in s. */
  function IndexOf(s: string, c: char): (i: nat)
    requires c in s
    ensures i < |s| && s[i] == c && c !in s[..i]
  {
    if s[0] == c then 0 else 1 + IndexOf(s[1..], c)
  }

  /** Every piece of s between occurrences of sep, empty pieces included. */
  function SplitAll(s: string, sep: char): (r: seq<string>)
    ensures |r| >= 1
    ensures forall k :: 0 <= k < |r| ==> sep !in r[k]
    ensures Join(r, sep) == s
    decreases |s|
  {
    if sep in s then
      var i := IndexOf(s, sep);
      assert s == s[..i] + [sep] + s[i + 1..];
      [s[..i]] + SplitAll(s[i + 1..], sep)
    else [s]
  }

  /** Array#join with a one-character separator. */
  function Join(parts: seq<string>, sep: char): string
    requires |parts| >= 1
  {
    if |parts| == 1 then parts[0] else parts[0] + [sep] + Join(parts[1..], sep)
  }

  /** Splitting a join gives the parts back when no part holds the separator. */
  lemma {:induction false} SplitJoin(parts: seq<string>, sep: char)
    requires |parts| >= 1
    requires forall k :: 0 <= k < |parts| ==> sep !in parts[k]
    ensures SplitAll(Join(parts, sep), sep) == parts
    decreases |parts|
  {
    if |parts| > 1 {
      var rest := parts[1..];
      var s := Join(parts, sep);
      assert s == parts[0] + [sep] + Join(rest, sep);
      assert s[|parts[0]|] == sep && s[..|parts[0]|] == parts[0];
      assert sep in s;
      var i := IndexOf(s, sep);
      assert i == |parts[0]|;
      assert s[i + 1..] == Join(rest, sep);
      forall k | 0 <= k < |rest| ensures sep !in rest[k] {
        assert rest[k] == parts[k + 1];
      }
      SplitJoin(rest, sep);
    }
  }

  /** Ruby's split without a limit drops the empty fields at the end. */
  function DropTrailingEmpty(pieces: seq<string>): (r: seq<string>)
    ensures |r| <= |pieces| && r == pieces[..|r|]
    ensures r == [] || r[|r| - 1] != []
    ensures forall k :: |r| <= k < |pieces| ==> pieces[k] == []
  {
    if pieces == [] || pieces[|pieces| - 1] != [] then pieces
    else DropTrailingEmpty(pieces[..|pieces| - 1])
  }

  /** String#split with a one-character pattern and no limit. */
  function Split(s: string, sep: char): seq<string> {
    DropTrailingEmpty(SplitAll(s, sep))
  }
}
