/**
 * The line grammar of a groonga query log, as `QueryLogParser#parse` and
 * `#parse_line` match it with regular expressions:
 *
 *   YYYY-MM-DD hh:mm:ss.<digits>|<context id>|<marker><rest>
 *
 * where the marker is `>` (a request opens), `:` (a progress entry) or
 * `<` (the request closes). The context id is matched lazily, so it is the
 * shortest non-empty run of non-newline characters followed by `|` and a marker.
 */
module LogLine {
  import opened Wrappers
  import opened RubyText

  /** The seven digit groups of the timestamp, before Time.local reads them. */
  datatype TimeFields = TimeFields(
    year: string, month: string, day: string,
    hour: string, minute: string, second: string, fraction: string)

  datatype Marker = Open | Progress | Close

  /** What a matching line yields: the timestamp, the context id, the marker and
      the rest of the line with String#strip applied. */
  datatype Header = Header(time: TimeFields, contextId: string, marker: Marker, rest: string)

  predicate IsMarkerChar(c: char) { c == '>' || c == ':' || c == '<' }

  function MarkerOf(c: char): Marker
    requires IsMarkerChar(c)
  {
    if c == '>' then Open else if c == ':' then Progress else Close
  }

  function MarkerChar(m: Marker): (c: char)
    ensures IsMarkerChar(c) && MarkerOf(c) == m
  {
    match m
    case Open => '>'
    case Progress => ':'
    case Close => '<'
  }

  /** The fixed-width part of the timestamp, `\A\d{4}-\d\d-\d\d \d\d:\d\d:\d\d\.`. */
  predicate FitsShape(line: string) {
    && |line| >= 20
    && AllDigits(line[0..4]) && line[4] == '-' && AllDigits(line[5..7]) && line[7] == '-'
    && AllDigits(line[8..10]) && line[10] == ' ' && AllDigits(line[11..13]) && line[13] == ':'
    && AllDigits(line[14..16]) && line[16] == ':' && AllDigits(line[17..19]) && line[19] == '.'
  }

  /** The digit groups of a line whose fraction ends at f. */
  function Fields(line: string, f: nat): TimeFields
    requires 20 <= f <= |line|
  {
    TimeFields(line[0..4], line[5..7], line[8..10], line[11..13], line[14..16], line[17..19], line[20..f])
  }

  /** `|` followed by a marker starts at position j. */
  predicate IdDelimiterAt(s: string, j: nat) {
    j + 1 < |s| && s[j] == '|' && IsMarkerChar(s[j + 1])
  }

  /**
   * The lazy `(.+?)\|([>:<])` scan: the context id starts at b, the scan has
   * reached candidate end k, and s[b..k-1] holds no newline. Returns the end
   * of the shortest acceptable id, if any.
   */
  function IdEnd(s: string, b: nat, k: nat): (r: Option<nat>)
    requires b < k
    requires forall t :: b <= t < k - 1 && t < |s| ==> s[t] != '\n'
    ensures r.Some? ==>
      && k <= r.value && IdDelimiterAt(s, r.value)
      && (forall t :: b <= t < r.value ==> s[t] != '\n')
      && (forall j :: k <= j < r.value ==> !IdDelimiterAt(s, j))
    ensures r.None? ==> forall j :: k <= j && IdDelimiterAt(s, j) ==> '\n' in s[b..j]
    decreases |s| - k
  {
    if k + 1 >= |s| then None
    else if s[k - 1] == '\n' then
      assert forall j :: k <= j < |s| ==> s[b..j][k - 1 - b] == '\n';
      None
    else if IdDelimiterAt(s, k) then Some(k)
    else IdEnd(s, b, k + 1)
  }

  /** Position just after the fractional-second digits. */
  function FractionEnd(line: string): (f: nat)
    requires FitsShape(line)
    ensures 20 <= f <= |line|
  {
    20 + LeadingRun(line[20..], IsDigit)
  }

  /**
   * The match of the header pattern against one line, or None when the line
   * does not match (such a line is ignored).
   */
  function MatchHeader(line: string): (r: Option<Header>)
    ensures r.Some? ==> WellFormed(r.value) && StartsWith(line, FormatHead(r.value))
  {
    if !FitsShape(line) then None
    else
      var f := FractionEnd(line);
      if f == 20 || f >= |line| || line[f] != '|' then None
      else
        match IdEnd(line, f + 1, f + 2)
        case None => None
        case Some(k) =>
          MatchedHeader(line, f, k);
          Some(Matched(line, f, k))
  }

  /** The rest of a matching line is the stripped text after its marker. */
  lemma MatchHeaderRest(line: string, h: Header)
    requires MatchHeader(line) == Some(h)
    ensures h.rest == Strip(line[|FormatHead(h)|..])
  {
    var f, k := MatchedAt(line);
    MatchedRest(line, f, k, h);
  }

  /** Where the fraction and the id of a matching line end. */
  lemma MatchedAt(line: string) returns (f: nat, k: nat)
    requires MatchHeader(line).Some?
    ensures 20 <= f < k && k + 1 < |line| && IsMarkerChar(line[k + 1])
    ensures MatchHeader(line) == Some(Matched(line, f, k))
    ensures |FormatHead(Matched(line, f, k))| == k + 2
  {
    f := FractionEnd(line);
    assert FitsShape(line) && 20 < f < |line| && line[f] == '|' && IdEnd(line, f + 1, f + 2).Some?;
    k := IdEnd(line, f + 1, f + 2).value;
    MatchedHeader(line, f, k);
    MatchHeaderAt(line, f, k);
  }

  lemma MatchedRest(line: string, f: nat, k: nat, h: Header)
    requires 20 <= f < k && k + 1 < |line| && IsMarkerChar(line[k + 1])
    requires h == Matched(line, f, k) && |FormatHead(h)| == k + 2
    ensures h.rest == Strip(line[|FormatHead(h)|..])
  {
    var n := |FormatHead(h)|;
    assert line[n..] == line[k + 2..];
  }

  /** The header read off a line whose fraction ends at f and whose id ends at k. */
  function Matched(line: string, f: nat, k: nat): Header
    requires 20 <= f < k && k + 1 < |line| && IsMarkerChar(line[k + 1])
  {
    Header(Fields(line, f), line[f + 1..k], MarkerOf(line[k + 1]), Strip(line[k + 2..]))
  }

  lemma MatchedHeader(line: string, f: nat, k: nat)
    requires FitsShape(line) && f == FractionEnd(line) && 20 < f < |line| && line[f] == '|'
    requires IdEnd(line, f + 1, f + 2) == Some(k)
    ensures k + 1 < |line| && IsMarkerChar(line[k + 1])
    ensures WellFormed(Matched(line, f, k)) && StartsWith(line, FormatHead(Matched(line, f, k)))
    ensures |FormatHead(Matched(line, f, k))| == k + 2
  {
    var h := Matched(line, f, k);
    MatchedTime(line, f);
    MatchedId(line, f, k);
    HeadOfLine(line, f, k, h);
  }

  lemma MatchedTime(line: string, f: nat)
    requires FitsShape(line) && f == FractionEnd(line) && 20 < f
    ensures WellFormedTime(Fields(line, f))
  {
    assert forall t :: 0 <= t < f - 20 ==> line[20..f][t] == line[20..][t];
  }

  lemma MatchedId(line: string, f: nat, k: nat)
    requires 20 < f < |line| && IdEnd(line, f + 1, f + 2) == Some(k)
    ensures WellFormedId(line[f + 1..k])
  {
    var id := line[f + 1..k];
    assert forall t :: 0 <= t < |id| ==> id[t] == line[f + 1 + t];
    forall j | 0 < j < |id| ensures !IdDelimiterAt(id, j) {
      assert !IdDelimiterAt(line, f + 1 + j);
    }
  }

  /** What MatchHeader returns once the fraction end and the id end are known. */
  lemma MatchHeaderAt(line: string, f: nat, k: nat)
    requires FitsShape(line) && f == FractionEnd(line) && 20 < f < |line| && line[f] == '|'
    requires IdEnd(line, f + 1, f + 2) == Some(k)
    ensures k + 1 < |line| && IsMarkerChar(line[k + 1])
    ensures MatchHeader(line) == Some(Matched(line, f, k))
  {
  }

  lemma HeadOfLine(line: string, f: nat, k: nat, h: Header)
    requires FitsShape(line) && 20 < f < k && k + 1 < |line|
    requires line[f] == '|' && line[k] == '|' && IsMarkerChar(line[k + 1])
    requires h.time == Fields(line, f)
    requires h.contextId == line[f + 1..k] && h.marker == MarkerOf(line[k + 1])
    ensures FormatHead(h) == line[..k + 2]
  {
    FieldsFormat(line, f);
    assert line[..k + 2] == line[..f] + [line[f]] + line[f + 1..k] + [line[k], line[k + 1]];
  }

  lemma FieldsFormat(line: string, f: nat)
    requires FitsShape(line) && 20 <= f <= |line|
    ensures FormatTime(Fields(line, f)) == line[..f]
  {
    var s := FormatTime(Fields(line, f));
    assert |s| == f;
    forall i | 0 <= i < f ensures s[i] == line[i] {
      if i < 4 {} else if i < 5 {} else if i < 7 {} else if i < 8 {} else if i < 10 {}
      else if i < 11 {} else if i < 13 {} else if i < 14 {} else if i < 16 {} else if i < 17 {}
      else if i < 19 {} else if i < 20 {} else {}
    }
  }

  lemma FormatFields(t: TimeFields, tail: string)
    requires WellFormedTime(t)
    ensures var line := FormatTime(t) + tail;
      |FormatTime(t)| == 20 + |t.fraction| && FitsShape(line) && Fields(line, 20 + |t.fraction|) == t
  {
    var s := FormatTime(t);
    assert s[0..4] == t.year && s[5..7] == t.month && s[8..10] == t.day;
    assert s[11..13] == t.hour && s[14..16] == t.minute && s[17..19] == t.second;
    assert s[20..] == t.fraction;
    assert (s + tail)[..|s|] == s;
  }

  predicate WellFormedTime(t: TimeFields) {
    && |t.year| == 4 && AllDigits(t.year)
    && |t.month| == 2 && AllDigits(t.month)
    && |t.day| == 2 && AllDigits(t.day)
    && |t.hour| == 2 && AllDigits(t.hour)
    && |t.minute| == 2 && AllDigits(t.minute)
    && |t.second| == 2 && AllDigits(t.second)
    && |t.fraction| >= 1 && AllDigits(t.fraction)
  }

  /** A context id the lazy scan stops exactly after: non-empty, no newline,
      and no `|`+marker inside it past its first character. */
  predicate WellFormedId(id: string) {
    |id| >= 1 && '\n' !in id && forall j :: 0 < j < |id| ==> !IdDelimiterAt(id, j)
  }

  predicate WellFormed(h: Header) {
    WellFormedTime(h.time) && WellFormedId(h.contextId) && IsStripped(h.rest)
  }

  function FormatTime(t: TimeFields): string {
    t.year + "-" + t.month + "-" + t.day + " " + t.hour + ":" + t.minute + ":" + t.second + "." + t.fraction
  }

  /** The text of a line up to and including its marker. */
  function FormatHead(h: Header): string {
    FormatTime(h.time) + "|" + h.contextId + "|" + [MarkerChar(h.marker)]
  }

  /** The line a logger writes for a header. */
  function FormatLine(h: Header): string {
    FormatHead(h) + h.rest
  }

  /**
   * A line that starts with a formatted header matches, and gives back that
   * header with the stripped text after the marker as its rest.
   */
  lemma MatchFormatHead(h: Header, tail: string)
    requires WellFormedTime(h.time) && WellFormedId(h.contextId)
    ensures MatchHeader(FormatHead(h) + tail) == Some(h.(rest := Strip(tail)))
  {
    var t, id := h.time, h.contextId;
    var after := [MarkerChar(h.marker)] + tail;
    var idPart := "|" + (id + ("|" + after));
    var line := FormatTime(t) + idPart;
    var f := 20 + |t.fraction|;
    var k := f + 1 + |id|;
    LineLayout(h, tail, line, idPart);
    MatchLaidOut(h, tail, line, after);
  }

  /** Matching a line laid out as a formatted time, `|`, a well-formed id, `|` and a marker. */
  lemma MatchLaidOut(h: Header, tail: string, line: string, after: string)
    requires WellFormedTime(h.time) && WellFormedId(h.contextId)
    requires after == [MarkerChar(h.marker)] + tail
    requires FitsShape(line) && FractionEnd(line) == 20 + |h.time.fraction|
    requires line[20 + |h.time.fraction|..] == "|" + (h.contextId + ("|" + after))
    requires Fields(line, 20 + |h.time.fraction|) == h.time
    ensures MatchHeader(line) == Some(h.(rest := Strip(tail)))
  {
    var f := 20 + |h.time.fraction|;
    var k := f + 1 + |h.contextId|;
    LaidOutFacts(h, tail, line, after, f, k);
    MatchHeaderAt(line, f, k);
    MatchedIs(line, f, k, h, tail);
  }

  /** Where a laid-out line keeps its id, marker and rest. */
  lemma LaidOutFacts(h: Header, tail: string, line: string, after: string, f: nat, k: nat)
    requires WellFormedId(h.contextId) && after == [MarkerChar(h.marker)] + tail
    requires f <= |line| && k == f + 1 + |h.contextId|
    requires line[f..] == "|" + (h.contextId + ("|" + after))
    ensures f < |line| && line[f] == '|' && IdEnd(line, f + 1, f + 2) == Some(k)
    ensures k + 1 < |line| && line[f + 1..][..k - f - 1] == h.contextId
    ensures line[f + 1..][k - f] == MarkerChar(h.marker) && line[f + 1..][k - f + 1..] == tail
  {
    var idPart := "|" + (h.contextId + ("|" + after));
    assert line[f + 1..] == idPart[1..];
    IdScanOf(line, f + 1, h.contextId, after);
    IdPartFields(line[f + 1..], h.contextId, after);
  }

  /** Formatting a well-formed header and matching the line gives the header back. */
  lemma MatchFormatLine(h: Header)
    requires WellFormed(h)
    ensures MatchHeader(FormatLine(h)) == Some(h)
  {
    MatchFormatHead(h, h.rest);
    assert h.(rest := Strip(h.rest)) == h;
  }

  /** The slices after the fraction's `|`: the id, its closing `|`, and the marker with the rest. */
  lemma IdPartFields(s: string, id: string, after: string)
    requires s == id + ("|" + after) && after != []
    ensures s[..|id|] == id && s[|id|] == '|' && s[|id| + 1] == after[0] && s[|id| + 2..] == after[1..]
  {
    assert s[|id| + 1..] == after;
  }

  lemma MatchedIs(line: string, f: nat, k: nat, h: Header, tail: string)
    requires 20 <= f < k && k + 1 < |line| && line[f + 1..][..k - f - 1] == h.contextId
    requires line[f + 1..][k - f] == MarkerChar(h.marker) && line[f + 1..][k - f + 1..] == tail
    requires Fields(line, f) == h.time
    ensures IsMarkerChar(line[k + 1]) && Matched(line, f, k) == h.(rest := Strip(tail))
  {
    assert line[f + 1..k] == line[f + 1..][..k - f - 1];
    assert line[k + 2..] == line[f + 1..][k - f + 1..];
  }

  lemma LineLayout(h: Header, tail: string, line: string, idPart: string)
    requires WellFormedTime(h.time)
    requires idPart == "|" + (h.contextId + ("|" + ([MarkerChar(h.marker)] + tail)))
    requires line == FormatTime(h.time) + idPart
    ensures line == FormatHead(h) + tail
    ensures FitsShape(line) && FractionEnd(line) == 20 + |h.time.fraction|
    ensures line[20 + |h.time.fraction|..] == idPart && Fields(line, 20 + |h.time.fraction|) == h.time
  {
    FormatFields(h.time, idPart);
    assert line[20..] == h.time.fraction + idPart;
    FractionEndOf(line, h.time.fraction, idPart);
    Regroup(FormatTime(h.time), h.contextId, [MarkerChar(h.marker)], tail);
  }

  lemma Regroup(time: string, id: string, marker: string, tail: string)
    ensures time + ("|" + (id + ("|" + (marker + tail)))) == time + "|" + id + "|" + marker + tail
  {
  }

  lemma FractionEndOf(line: string, fraction: string, tail: string)
    requires FitsShape(line) && |fraction| >= 1 && AllDigits(fraction)
    requires line[20..] == fraction + tail && tail != [] && tail[0] == '|'
    ensures FractionEnd(line) == 20 + |fraction|
  {
    var run := line[20..];
    assert forall k :: 0 <= k < |fraction| ==> run[k] == fraction[k];
    assert run[|fraction|] == '|';
  }

  /** The lazy scan stops right after a well-formed id followed by `|` and a marker. */
  lemma IdScanOf(line: string, b: nat, id: string, after: string)
    requires WellFormedId(id) && after != [] && IsMarkerChar(after[0])
    requires b <= |line| && line[b..] == id + ("|" + after)
    ensures IdEnd(line, b, b + 1) == Some(b + |id|)
  {
    var k := b + |id|;
    assert line[k] == '|' && line[k + 1] == after[0];
    forall j | b + 1 <= j < k ensures !IdDelimiterAt(line, j) {
      assert line[j] == id[j - b];
      if j + 1 < k {
        assert line[j + 1] == id[j - b + 1];
        assert !IdDelimiterAt(id, j - b);
      } else {
        assert line[j + 1] == '|';
      }
    }
    forall t | b <= t < k ensures line[t] != '\n' {
      assert line[t] == id[t - b];
    }
    assert IdDelimiterAt(line, k);
    match IdEnd(line, b, b + 1)
    case None =>
    case Some(e) =>
  }

  /** A run of digits ending where a non-digit (or the end) follows is the leading digit run. */
  lemma DigitsEndAt(s: string, n: nat)
    requires n <= |s| && AllDigits(s[..n]) && (n == |s| || !IsDigit(s[n]))
    ensures LeadingRun(s, IsDigit) == n
  {
    var l := LeadingRun(s, IsDigit);
    assert forall k :: 0 <= k < n ==> IsDigit(s[k]) by {
      forall k | 0 <= k < n ensures IsDigit(s[k]) {
        assert s[k] == s[..n][k];
      }
    }
  }

  /** `\A(\d+) ` matches the payload with the digit group `rest[..n]`. */
  predicate ProgressMatchAt(rest: string, n: int) {
    0 < n < |rest| && AllDigits(rest[..n]) && rest[n] == ' '
  }

  /** The payload of a progress line, `\A(\d+) `: the offset and the stripped label after the space. */
  function ParseProgress(rest: string): (r: Option<(nat, string)>)
    ensures r.Some? <==> exists n :: ProgressMatchAt(rest, n)
    ensures forall n :: ProgressMatchAt(rest, n) ==> r == Some((DecimalValue(rest[..n]), Strip(rest[n + 1..])))
    ensures r.Some? ==> IsStripped(r.value.1)
  {
    var n := LeadingRun(rest, IsDigit);
    ProgressMatchIsLeading(rest);
    if n == 0 || n >= |rest| || rest[n] != ' ' then None
    else
      assert ProgressMatchAt(rest, n);
      Some((DecimalValue(rest[..n]), Strip(rest[n + 1..])))
  }

  /** Wherever the progress pattern matches, its digit group is the leading digit run. */
  lemma ProgressMatchIsLeading(rest: string)
    ensures forall n :: ProgressMatchAt(rest, n) ==> n == LeadingRun(rest, IsDigit)
  {
    forall n | ProgressMatchAt(rest, n) ensures n == LeadingRun(rest, IsDigit) {
      DigitsEndAt(rest, n);
    }
  }

  lemma {:induction false} ParseProgressFormat(offset: nat, text: string)
    ensures ParseProgress(Decimal(offset) + " " + text) == Some((offset, Strip(text)))
  {
    var ds := Decimal(offset);
    var rest := ds + " " + text;
    assert forall k :: 0 <= k < |ds| ==> rest[k] == ds[k];
    assert rest[|ds|] == ' ';
    assert LeadingRun(rest, IsDigit) == |ds|;
    assert rest[..|ds|] == ds && rest[|ds| + 1..] == text;
    DecimalRoundTrip(offset);
  }

  /**
   * `\A(\d+) rc=(\d+)` matches the payload with the digit groups `rest[..n]`
   * and the `m` digits after ` rc=`; the second group, being greedy, takes the
   * whole digit run.
   */
  predicate CloseMatchAt(rest: string, n: int, m: int) {
    && 0 < n && 0 < m && n + 4 + m <= |rest|
    && AllDigits(rest[..n]) && rest[n..n + 4] == " rc="
    && AllDigits(rest[n + 4..n + 4 + m])
    && (n + 4 + m == |rest| || !IsDigit(rest[n + 4 + m]))
  }

  /** The payload of a close line, `\A(\d+) rc=(\d+)`: elapsed and return code. */
  function ParseClose(rest: string): (r: Option<(nat, nat)>)
    ensures r.Some? <==> exists n, m :: CloseMatchAt(rest, n, m)
    ensures forall n, m :: CloseMatchAt(rest, n, m) ==>
      r == Some((DecimalValue(rest[..n]), DecimalValue(rest[n + 4..n + 4 + m])))
  {
    var n := LeadingRun(rest, IsDigit);
    if n == 0 || n + 4 > |rest| || rest[n..n + 4] != " rc=" then
      NoCloseMatch(rest);
      None
    else
      var m := LeadingRun(rest[n + 4..], IsDigit);
      if m == 0 then
        NoCloseMatch(rest);
        None
      else
        CloseMatched(rest, n, m);
        Some((DecimalValue(rest[..n]), DecimalValue(rest[n + 4..n + 4 + m])))
  }

  /** Without a leading digit run, ` rc=` and a second digit run, the close pattern matches nowhere. */
  lemma NoCloseMatch(rest: string)
    requires var n := LeadingRun(rest, IsDigit);
      n == 0 || n + 4 > |rest| || rest[n..n + 4] != " rc=" || LeadingRun(rest[n + 4..], IsDigit) == 0
    ensures forall n, m :: !CloseMatchAt(rest, n, m)
  {
    CloseMatchIsLeading(rest);
  }

  /** The leading digit runs are a match of the close pattern, and the only one. */
  lemma CloseMatched(rest: string, n: nat, m: nat)
    requires 0 < n && n + 4 <= |rest| && LeadingRun(rest, IsDigit) == n && rest[n..n + 4] == " rc="
    requires 0 < m && LeadingRun(rest[n + 4..], IsDigit) == m
    ensures CloseMatchAt(rest, n, m)
    ensures forall n', m' :: CloseMatchAt(rest, n', m') ==> n' == n && m' == m
  {
    CloseMatchIsLeading(rest);
    var code := rest[n + 4..];
    assert code[..m] == rest[n + 4..n + 4 + m];
    if n + 4 + m < |rest| {
      assert code[m] == rest[n + 4 + m];
    }
  }

  /** Wherever the close pattern matches, its groups are the leading digit runs. */
  lemma CloseMatchIsLeading(rest: string)
    ensures forall n, m :: CloseMatchAt(rest, n, m) ==>
      n == LeadingRun(rest, IsDigit) && m == LeadingRun(rest[n + 4..], IsDigit)
  {
    forall n, m | CloseMatchAt(rest, n, m)
      ensures n == LeadingRun(rest, IsDigit) && m == LeadingRun(rest[n + 4..], IsDigit)
    {
      DigitsEndAt(rest, n);
      var code := rest[n + 4..];
      assert code[..m] == rest[n + 4..n + 4 + m];
      if n + 4 + m < |rest| {
        assert code[m] == rest[n + 4 + m];
      }
      DigitsEndAt(code, m);
    }
  }

  lemma {:induction false} ParseCloseFormat(elapsed: nat, rc: nat, tail: string)
    requires tail == [] || !IsDigit(tail[0])
    ensures ParseClose(Decimal(elapsed) + (" rc=" + (Decimal(rc) + tail))) == Some((elapsed, rc))
  {
    var es, rs := Decimal(elapsed), Decimal(rc);
    var after := rs + tail;
    var rest := es + (" rc=" + after);
    DigitRun(es, " rc=" + after);
    DigitRun(rs, tail);
    Splice(es, " rc=", after);
    ParseCloseAt(rest, |es|, |rs|);
    DecimalRoundTrip(elapsed);
    DecimalRoundTrip(rc);
  }

  lemma Splice(a: string, b: string, c: string)
    ensures (a + (b + c))[..|a|] == a
    ensures (a + (b + c))[|a|..|a| + |b|] == b
    ensures (a + (b + c))[|a| + |b|..] == c
  {
  }

  lemma ParseCloseAt(rest: string, n: nat, m: nat)
    requires 0 < n && n + 4 <= |rest| && LeadingRun(rest, IsDigit) == n && rest[n..n + 4] == " rc="
    requires 0 < m && LeadingRun(rest[n + 4..], IsDigit) == m
    ensures AllDigits(rest[..n]) && AllDigits(rest[n + 4..][..m])
    ensures ParseClose(rest) == Some((DecimalValue(rest[..n]), DecimalValue(rest[n + 4..][..m])))
  {
    CloseMatched(rest, n, m);
    assert rest[n + 4..][..m] == rest[n + 4..n + 4 + m];
  }

  /** A run of digits followed by a non-digit (or nothing) is exactly the leading digit run. */
  lemma DigitRun(ds: string, tail: string)
    requires AllDigits(ds) && (tail == [] || !IsDigit(tail[0]))
    ensures LeadingRun(ds + tail, IsDigit) == |ds| && (ds + tail)[..|ds|] == ds
  {
    assert forall k :: 0 <= k < |ds| ==> (ds + tail)[k] == ds[k];
    if tail != [] {
      assert (ds + tail)[|ds|] == tail[0];
    }
  }
}
