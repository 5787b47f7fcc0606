/**
 * `QueryLogParser`: reads a query log line by line and demultiplexes the
 * interleaved open / progress / close lines into completed Statistic records.
 * The in-flight table maps a context id to the record being assembled; a close
 * line moves its record, finished, to the end of the completed list.
 */
module QueryLogParsing {
  import opened Wrappers
  import opened RubyText
  import opened LogLine
  import opened Statistics

  /** `Time.local` over the digit groups of a timestamp; it depends on the local time zone. */
  type Clock = TimeFields -> int

  /** The two locals of `parse`: the in-flight table and the completed list. */
  datatype ParserState = ParserState(current: map<string, Statistic>, completed: seq<Statistic>)

  const Initial: ParserState := ParserState(map[], [])

  /** The effect of `parse_line` for one matched line. */
  function NextState(st: ParserState, timeStamp: int, contextId: string, marker: Marker, rest: string): (r: ParserState)
    ensures marker != Close ==> r.completed == st.completed
    ensures marker == Open ==> contextId in r.current
    ensures marker == Close ==> r == st || (contextId !in r.current && |r.completed| == |st.completed| + 1)
  {
    match marker
    case Open =>
      st.(current := st.current[contextId := Started(contextId, timeStamp, rest)])
    case Progress =>
      var progress := ParseProgress(rest);
      if progress.None? || contextId !in st.current then st
      else
        var (offset, text) := progress.value;
        st.(current := st.current[contextId := AddTrace(st.current[contextId], TraceEntry(offset, text))])
    case Close =>
      var close := ParseClose(rest);
      if close.None? || contextId !in st.current then st
      else
        var (elapsed, returnCode) := close.value;
        ParserState(st.current - {contextId}, st.completed + [Finish(st.current[contextId], elapsed, returnCode)])
  }

  /** One turn of the `each_line` loop: lines that do not match the header pattern are ignored. */
  function Step(st: ParserState, line: string, clock: Clock): (r: ParserState)
    ensures MatchHeader(line).None? ==> r == st
    ensures |st.completed| <= |r.completed| <= |st.completed| + 1
  {
    match MatchHeader(line)
    case None => st
    case Some(h) => NextState(st, clock(h.time), h.contextId, h.marker, h.rest)
  }

  /** The state after the given lines. */
  function Run(st: ParserState, lines: seq<string>, clock: Clock): (r: ParserState)
    ensures |st.completed| <= |r.completed| <= |st.completed| + |lines|
    decreases |lines|
  {
    if lines == [] then st else Step(Run(st, lines[..|lines| - 1], clock), lines[|lines| - 1], clock)
  }

  /** The locals `statistics` and `current_statistics` of one `parse` call, which `parse_line` updates. */
  class ParseSession {
    var statistics: seq<Statistic>
    var currentStatistics: map<string, Statistic>

    function State(): ParserState
      reads this
    {
      ParserState(currentStatistics, statistics)
    }

    constructor ()
      ensures State() == Initial
    {
      statistics := [];
      currentStatistics := map[];
    }

    /** The block `parse` runs for each line: a line that matches the header pattern goes to `parse_line`. */
    method ReadLine(line: string, clock: Clock)
      modifies this
      ensures State() == Step(old(State()), line, clock)
    {
      ghost var before := State();
      match MatchHeader(line) {
        case Some(h) =>
          ParseLine(clock(h.time), h.contextId, h.marker, h.rest);
          StepOf(before, line, clock, h);
        case None =>
      }
    }

    /** `parse_line`. */
    method ParseLine(timeStamp: int, contextId: string, marker: Marker, rest: string)
      modifies this
      ensures State() == NextState(old(State()), timeStamp, contextId, marker, rest)
    {
      match marker
      case Open =>
        var statistic := Started(contextId, timeStamp, rest);
        currentStatistics := currentStatistics[contextId := statistic];
      case Progress =>
        var progress := ParseProgress(rest);
        if progress.None? { return; }
        var (offset, text) := progress.value;
        if contextId !in currentStatistics { return; }
        var statistic := currentStatistics[contextId];
        currentStatistics := currentStatistics[contextId := AddTrace(statistic, TraceEntry(offset, text))];
      case Close =>
        var close := ParseClose(rest);
        if close.None? { return; }
        var (elapsed, returnCode) := close.value;
        if contextId !in currentStatistics { return; }
        var statistic := currentStatistics[contextId];
        currentStatistics := currentStatistics - {contextId};
        statistics := statistics + [Finish(statistic, elapsed, returnCode)];
    }
  }

  /** The parser shared by all log files: `@statistics` collects every file's completed records. */
  class QueryLogParser {
    var statistics: seq<Statistic>

    constructor ()
      ensures statistics == []
    {
      statistics := [];
    }

    /** `parse`: one log file, then its completed records appended in one piece. */
    method Parse(input: seq<string>, clock: Clock)
      modifies this
      ensures statistics == old(statistics) + Run(Initial, input, clock).completed
    {
      var session := new ParseSession();
      var i := 0;
      while i < |input|
        invariant 0 <= i <= |input|
        invariant session.State() == Run(Initial, input[..i], clock)
        invariant statistics == old(statistics)
      {
        session.ReadLine(input[i], clock);
        RunSnoc(Initial, input[..i], input[i], clock);
        TakeOneMore(input, i);
        i := i + 1;
      }
      assert input[..i] == input;
      statistics := statistics + session.statistics;
    }
  }

  // ---------------------------------------------------------------------
  // What one line does

  /**
   * A line that does not match the header pattern, a progress or close line
   * with a malformed payload, and a progress or close line whose id has no
   * in-flight record all leave the state as it was.
   */
  lemma IgnoredLine(st: ParserState, line: string, clock: Clock)
    requires match MatchHeader(line)
      case None => true
      case Some(h) =>
        || (h.marker == Progress && (ParseProgress(h.rest).None? || h.contextId !in st.current))
        || (h.marker == Close && (ParseClose(h.rest).None? || h.contextId !in st.current))
    ensures Step(st, line, clock) == st
  {
  }

  /** A matched line is handed to `parse_line` with its fields. */
  lemma StepOf(st: ParserState, line: string, clock: Clock, h: Header)
    requires MatchHeader(line) == Some(h)
    ensures Step(st, line, clock) == NextState(st, clock(h.time), h.contextId, h.marker, h.rest)
  {
  }

  /** An open line installs a fresh record for its id, replacing any earlier one. */
  lemma OpenLine(st: ParserState, line: string, clock: Clock, h: Header)
    requires MatchHeader(line) == Some(h) && h.marker == Open
    ensures var next := Step(st, line, clock);
      && next.completed == st.completed
      && next.current.Keys == st.current.Keys + {h.contextId}
      && next.current[h.contextId] == Statistic(h.contextId, clock(h.time), h.rest, [], None, 0)
      && forall id :: id in st.current && id != h.contextId ==> next.current[id] == st.current[id]
  {
    StepOf(st, line, clock, h);
  }

  /** A valid progress line appends one entry at the end of its record's trace and changes nothing else. */
  lemma ProgressLine(st: ParserState, line: string, clock: Clock, h: Header, offset: nat, text: string)
    requires MatchHeader(line) == Some(h) && h.marker == Progress
    requires ParseProgress(h.rest) == Some((offset, text)) && h.contextId in st.current
    ensures var next, before := Step(st, line, clock), st.current[h.contextId];
      && next.completed == st.completed
      && next.current.Keys == st.current.Keys
      && next.current[h.contextId] == before.(trace := before.trace + [TraceEntry(offset, text)])
      && forall id :: id in st.current && id != h.contextId ==> next.current[id] == st.current[id]
  {
    StepOf(st, line, clock, h);
    ProgressNext(st, clock(h.time), h.contextId, h.rest, offset, text);
  }

  lemma ProgressNext(st: ParserState, timeStamp: int, contextId: string, rest: string, offset: nat, text: string)
    requires ParseProgress(rest) == Some((offset, text)) && contextId in st.current
    ensures var next, before := NextState(st, timeStamp, contextId, Progress, rest), st.current[contextId];
      && next.completed == st.completed
      && next.current.Keys == st.current.Keys
      && next.current[contextId] == before.(trace := before.trace + [TraceEntry(offset, text)])
      && forall id :: id in st.current && id != contextId ==> next.current[id] == st.current[id]
  {
  }

  /** A valid close line removes its id, finishes the record and appends it to the completed list. */
  lemma CloseLine(st: ParserState, line: string, clock: Clock, h: Header, elapsed: nat, returnCode: nat)
    requires MatchHeader(line) == Some(h) && h.marker == Close
    requires ParseClose(h.rest) == Some((elapsed, returnCode)) && h.contextId in st.current
    ensures var next, before := Step(st, line, clock), st.current[h.contextId];
      && next.current == st.current - {h.contextId}
      && next.completed == st.completed + [before.(elapsed := Some(elapsed), returnCode := returnCode)]
  {
    StepOf(st, line, clock, h);
  }

  // ---------------------------------------------------------------------
  // What a stream does

  lemma RunSnoc(st: ParserState, lines: seq<string>, line: string, clock: Clock)
    ensures Run(st, lines + [line], clock) == Step(Run(st, lines, clock), line, clock)
  {
    assert (lines + [line])[..|lines|] == lines;
  }

  /** Growing a prefix by one element, behind a fixed first element. */
  lemma ConsPrefix<T>(x: T, s: seq<T>, m: nat)
    requires 0 < m <= |s|
    ensures [x] + s[..m] == ([x] + s[..m - 1]) + [s[m - 1]]
    ensures s[..m] == s[..m - 1] + [s[m - 1]]
  {
    assert s[..m] == s[..m - 1] + [s[m - 1]];
  }

  /** Two maps that agree away from one key are equal once that key is removed. */
  lemma RemoveAgreeing<K, V>(a: map<K, V>, b: map<K, V>, key: K)
    requires a.Keys == b.Keys + {key}
    requires forall k :: k in b && k != key ==> a[k] == b[k]
    ensures a - {key} == b - {key}
  {
  }

  lemma WholePrefix<T>(s: seq<T>)
    ensures s[..|s|] == s
  {
  }

  /** The run over a first line and m more lines takes one step after the run over the first m - 1. */
  lemma RunCons(st: ParserState, first: string, more: seq<string>, m: nat, clock: Clock)
    requires 0 < m <= |more|
    ensures Run(st, [first] + more[..m], clock) == Step(Run(st, [first] + more[..m - 1], clock), more[m - 1], clock)
  {
    ConsPrefix(first, more, m);
    RunSnoc(st, [first] + more[..m - 1], more[m - 1], clock);
  }

  /** The line closes the request with this id. */
  predicate ClosesId(line: string, id: string) {
    match MatchHeader(line)
    case None => false
    case Some(h) => h.marker == Close && h.contextId == id && ParseClose(h.rest).Some?
  }

  /** Every in-flight record is filed under its own context id. */
  predicate Consistent(st: ParserState) {
    forall id :: id in st.current ==> st.current[id].contextId == id
  }

  lemma {:induction false} RunConsistent(st: ParserState, lines: seq<string>, clock: Clock)
    requires Consistent(st)
    ensures Consistent(Run(st, lines, clock))
    decreases |lines|
  {
    if lines != [] {
      RunConsistent(st, lines[..|lines| - 1], clock);
      StepConsistent(Run(st, lines[..|lines| - 1], clock), lines[|lines| - 1], clock);
    }
  }

  /** A line either leaves the completed list alone or appends one finished record, which it closes. */
  lemma StepCompleted(st: ParserState, line: string, clock: Clock)
    requires Consistent(st)
    ensures var next := Step(st, line, clock);
      || next.completed == st.completed
      || (&& |next.completed| == |st.completed| + 1
          && next.completed[..|st.completed|] == st.completed
          && IsFinished(next.completed[|st.completed|])
          && ClosesId(line, next.completed[|st.completed|].contextId))
  {
    match MatchHeader(line)
    case None =>
    case Some(h) =>
      var next := Step(st, line, clock);
      if h.marker == Close && ParseClose(h.rest).Some? && h.contextId in st.current {
        var (e, rc) := ParseClose(h.rest).value;
        CloseLine(st, line, clock, h, e, rc);
        assert next.completed[..|st.completed|] == st.completed;
      } else {
        assert next.completed == st.completed;
      }
  }

  predicate AllFinished(records: seq<Statistic>) {
    forall k :: 0 <= k < |records| ==> IsFinished(records[k])
  }

  /** One line keeps the completed list as a prefix and keeps every completed record finished. */
  lemma StepKeepsFinished(st: ParserState, line: string, clock: Clock)
    requires Consistent(st) && AllFinished(st.completed)
    ensures var next := Step(st, line, clock);
      && |st.completed| <= |next.completed|
      && next.completed[..|st.completed|] == st.completed
      && AllFinished(next.completed)
  {
    StepCompleted(st, line, clock);
    FinishedAppended(st.completed, Step(st, line, clock).completed);
  }

  lemma FinishedAppended(before: seq<Statistic>, after: seq<Statistic>)
    requires AllFinished(before)
    requires || after == before
             || (&& |after| == |before| + 1
                 && after[..|before|] == before
                 && IsFinished(after[|before|]))
    ensures |before| <= |after| && after[..|before|] == before
    ensures AllFinished(after)
  {
    if after == before {
      assert after[..|before|] == before;
    } else {
      forall k | 0 <= k < |after| ensures IsFinished(after[k]) {
        if k < |before| {
          assert after[k] == after[..|before|][k];
        }
      }
    }
  }

  lemma PrefixOfPrefix<T>(a: seq<T>, b: seq<T>, c: seq<T>)
    requires |a| <= |b| <= |c| && b[..|a|] == a && c[..|b|] == b
    ensures c[..|a|] == a
  {
    assert c[..|a|] == c[..|b|][..|a|];
  }

  /** Completed records are only ever appended, and every one of them is finished. */
  lemma {:induction false} RunAppendsFinished(st: ParserState, lines: seq<string>, clock: Clock)
    requires Consistent(st) && AllFinished(st.completed)
    ensures var next := Run(st, lines, clock);
      && |st.completed| <= |next.completed|
      && next.completed[..|st.completed|] == st.completed
      && AllFinished(next.completed)
    decreases |lines|
  {
    if lines == [] {
      assert st.completed[..|st.completed|] == st.completed;
    } else {
      var init, last := lines[..|lines| - 1], lines[|lines| - 1];
      RunAppendsFinished(st, init, clock);
      RunConsistent(st, init, clock);
      var mid := Run(st, init, clock);
      StepKeepsFinished(mid, last, clock);
      PrefixOfPrefix(st.completed, mid.completed, Run(st, lines, clock).completed);
    }
  }

  /** Every record a parse hands over is finished: it has an elapsed time. */
  lemma ParsedAreFinished(input: seq<string>, clock: Clock)
    ensures AllFinished(Run(Initial, input, clock).completed)
  {
    RunAppendsFinished(Initial, input, clock);
  }

  /** A request that no line closes never reaches the completed list: it is dropped at end of input. */
  lemma {:induction false} UnclosedIsDropped(st: ParserState, lines: seq<string>, clock: Clock, id: string)
    requires Consistent(st)
    requires forall k :: 0 <= k < |lines| ==> !ClosesId(lines[k], id)
    ensures var next := Run(st, lines, clock);
      && |st.completed| <= |next.completed|
      && next.completed[..|st.completed|] == st.completed
      && forall k :: |st.completed| <= k < |next.completed| ==> next.completed[k].contextId != id
    decreases |lines|
  {
    if lines == [] {
      assert st.completed[..|st.completed|] == st.completed;
    } else {
      var init, last := lines[..|lines| - 1], lines[|lines| - 1];
      assert forall k :: 0 <= k < |init| ==> init[k] == lines[k];
      UnclosedIsDropped(st, init, clock, id);
      RunConsistent(st, init, clock);
      var mid := Run(st, init, clock);
      StepNotClosing(mid, last, clock, id);
      var next := Run(st, lines, clock);
      PrefixOfPrefix(st.completed, mid.completed, next.completed);
      forall k | |st.completed| <= k < |next.completed| ensures next.completed[k].contextId != id {
        if k < |mid.completed| {
          assert next.completed[k] == next.completed[..|mid.completed|][k];
        }
      }
    }
  }

  /** A line that does not close this id appends no record with this id. */
  lemma StepNotClosing(st: ParserState, line: string, clock: Clock, id: string)
    requires Consistent(st) && !ClosesId(line, id)
    ensures var next := Step(st, line, clock);
      && |st.completed| <= |next.completed|
      && next.completed[..|st.completed|] == st.completed
      && forall k :: |st.completed| <= k < |next.completed| ==> next.completed[k].contextId != id
  {
    StepCompleted(st, line, clock);
    var next := Step(st, line, clock);
    if next.completed != st.completed {
      var closed := next.completed[|st.completed|].contextId;
      assert ClosesId(line, closed);
    }
    OtherIdAppended(st.completed, next.completed, id);
  }

  lemma OtherIdAppended(before: seq<Statistic>, after: seq<Statistic>, id: string)
    requires || after == before
             || (&& |after| == |before| + 1
                 && after[..|before|] == before
                 && after[|before|].contextId != id)
    ensures |before| <= |after| && after[..|before|] == before
    ensures forall k :: |before| <= k < |after| ==> after[k].contextId != id
  {
    if after == before {
      assert after[..|before|] == before;
    }
  }

  /** The line is a progress line for this id carrying this entry. */
  predicate ProgressFor(line: string, id: string, entry: TraceEntry) {
    match MatchHeader(line)
    case None => false
    case Some(h) =>
      h.marker == Progress && h.contextId == id && ParseProgress(h.rest) == Some((entry.offset, entry.traceLabel))
  }

  /** One progress line for an in-flight id, seen from the stream's side. */
  lemma ProgressStep(st: ParserState, line: string, clock: Clock, id: string, entry: TraceEntry)
    requires ProgressFor(line, id, entry) && id in st.current
    ensures var next, before := Step(st, line, clock), st.current[id];
      && next.completed == st.completed
      && next.current.Keys == st.current.Keys
      && next.current[id] == before.(trace := before.trace + [entry])
      && forall other :: other in st.current && other != id ==> next.current[other] == st.current[other]
  {
    var p := MatchHeader(line).value;
    ProgressLine(st, line, clock, p, entry.offset, entry.traceLabel);
  }

  /** The open line alone, seen from the stream's side. */
  lemma OpenStep(st: ParserState, open: string, clock: Clock, h: Header)
    requires MatchHeader(open) == Some(h) && h.marker == Open
    ensures var next := Run(st, [open], clock);
      && next.completed == st.completed
      && next.current.Keys == st.current.Keys + {h.contextId}
      && next.current[h.contextId] == Statistic(h.contextId, clock(h.time), h.rest, [], None, 0)
      && forall id :: id in st.current && id != h.contextId ==> next.current[id] == st.current[id]
  {
    RunSnoc(st, [], open, clock);
    assert [] + [open] == [open];
    OpenLine(st, open, clock, h);
  }

  /** The line is a close line for this id carrying this elapsed time and return code. */
  predicate CloseFor(line: string, id: string, elapsed: nat, returnCode: nat) {
    match MatchHeader(line)
    case None => false
    case Some(c) => c.marker == Close && c.contextId == id && ParseClose(c.rest) == Some((elapsed, returnCode))
  }

  /** One close line for an in-flight id, seen from the stream's side. */
  lemma CloseStep(st: ParserState, line: string, clock: Clock, id: string, elapsed: nat, returnCode: nat)
    requires CloseFor(line, id, elapsed, returnCode) && id in st.current
    ensures var next, before := Step(st, line, clock), st.current[id];
      && next.current == st.current - {id}
      && next.completed == st.completed + [before.(elapsed := Some(elapsed), returnCode := returnCode)]
  {
    CloseLine(st, line, clock, MatchHeader(line).value, elapsed, returnCode);
  }

  // ---------------------------------------------------------------------
  // One request among interleaved others

  /** The line matches the header pattern and carries this context id. */
  predicate Carries(line: string, id: string) {
    match MatchHeader(line)
    case None => false
    case Some(h) => h.contextId == id
  }

  /** The lines of a stream that carry this context id, in order. */
  function IdLines(lines: seq<string>, id: string): seq<string>
    decreases |lines|
  {
    if lines == [] then []
    else
      var last := lines[|lines| - 1];
      IdLines(lines[..|lines| - 1], id) + (if Carries(last, id) then [last] else [])
  }

  /** The id's lines among the first m lines come first among the id's lines. */
  lemma {:induction false} IdLinesPrefix(lines: seq<string>, m: nat, id: string)
    requires m <= |lines|
    ensures var p := IdLines(lines[..m], id);
      |p| <= |IdLines(lines, id)| && IdLines(lines, id)[..|p|] == p
    decreases |lines|
  {
    if m == |lines| {
      assert lines[..m] == lines;
    } else {
      var init := lines[..|lines| - 1];
      assert init[..m] == lines[..m];
      IdLinesPrefix(init, m, id);
      var q := IdLines(init, id);
      assert IdLines(lines, id)[..|q|] == q;
      PrefixOfPrefix(IdLines(lines[..m], id), q, IdLines(lines, id));
    }
  }

  lemma StepConsistent(st: ParserState, line: string, clock: Clock)
    requires Consistent(st)
    ensures Consistent(Step(st, line, clock))
  {
    if MatchHeader(line).Some? {
      var h := MatchHeader(line).value;
      assert Step(st, line, clock) == NextState(st, clock(h.time), h.contextId, h.marker, h.rest);
      match h.marker
      case Open =>
      case Progress =>
      case Close =>
    }
  }

  /** A line that does not carry this id leaves the id's in-flight record as it was. */
  lemma StepOther(st: ParserState, line: string, clock: Clock, id: string)
    requires !Carries(line, id)
    ensures var next := Step(st, line, clock);
      && (id in next.current <==> id in st.current)
      && (id in st.current ==> next.current[id] == st.current[id])
  {
    if MatchHeader(line).Some? {
      var h := MatchHeader(line).value;
      assert h.contextId != id;
      var next := NextState(st, clock(h.time), h.contextId, h.marker, h.rest);
      assert Step(st, line, clock) == next;
      match h.marker
      case Open =>
      case Progress =>
      case Close =>
    }
  }

  /**
   * Lines that do not carry this id leave its in-flight record (or its absence)
   * as it was, and append only records of other ids.
   */
  lemma {:induction false} OtherLines(st: ParserState, lines: seq<string>, clock: Clock, id: string)
    requires Consistent(st)
    requires forall k :: 0 <= k < |lines| ==> !Carries(lines[k], id)
    ensures var next := Run(st, lines, clock);
      && (id in next.current <==> id in st.current)
      && (id in st.current ==> next.current[id] == st.current[id])
      && |st.completed| <= |next.completed| && next.completed[..|st.completed|] == st.completed
      && forall k :: |st.completed| <= k < |next.completed| ==> next.completed[k].contextId != id
    decreases |lines|
  {
    assert forall k :: 0 <= k < |lines| ==> !ClosesId(lines[k], id);
    UnclosedIsDropped(st, lines, clock, id);
    if lines != [] {
      var init := lines[..|lines| - 1];
      assert forall k :: 0 <= k < |init| ==> init[k] == lines[k];
      OtherLines(st, init, clock, id);
      StepOther(Run(st, init, clock), lines[|lines| - 1], clock, id);
    }
  }

  /**
   * The state keeps the id's in-flight record equal to rec, and has appended
   * to st0's completed list only records of other ids.
   */
  predicate Tracks(st0: ParserState, s: ParserState, id: string, rec: Statistic) {
    && Consistent(s) && id in s.current && s.current[id] == rec
    && |st0.completed| <= |s.completed| && s.completed[..|st0.completed|] == st0.completed
    && forall k :: |st0.completed| <= k < |s.completed| ==> s.completed[k].contextId != id
  }

  lemma TakeOneMore<T>(s: seq<T>, c: nat)
    requires c < |s|
    ensures s[..c + 1] == s[..c] + [s[c]]
  {
  }

  /** Appending records of other ids twice appends records of other ids. */
  lemma OtherIdsCompose(c0: seq<Statistic>, c1: seq<Statistic>, c2: seq<Statistic>, id: string)
    requires |c0| <= |c1| && c1[..|c0|] == c0
    requires forall k :: |c0| <= k < |c1| ==> c1[k].contextId != id
    requires |c1| <= |c2| && c2[..|c1|] == c1
    requires forall k :: |c1| <= k < |c2| ==> c2[k].contextId != id
    ensures |c0| <= |c2| && c2[..|c0|] == c0
    ensures forall k :: |c0| <= k < |c2| ==> c2[k].contextId != id
  {
    PrefixOfPrefix(c0, c1, c2);
    forall k | |c0| <= k < |c1| ensures c2[k].contextId != id {
      assert c2[k] == c2[..|c1|][k];
    }
  }

  lemma TrackOther(st0: ParserState, s: ParserState, line: string, clock: Clock, id: string, rec: Statistic)
    requires Tracks(st0, s, id, rec) && !Carries(line, id)
    ensures Tracks(st0, Step(s, line, clock), id, rec)
  {
    var next := Step(s, line, clock);
    StepOther(s, line, clock, id);
    StepConsistent(s, line, clock);
    assert !ClosesId(line, id);
    StepNotClosing(s, line, clock, id);
    OtherIdsCompose(st0.completed, s.completed, next.completed, id);
  }

  lemma TrackProgress(st0: ParserState, s: ParserState, line: string, clock: Clock, id: string,
                      rec: Statistic, entry: TraceEntry)
    requires Tracks(st0, s, id, rec) && ProgressFor(line, id, entry)
    ensures Tracks(st0, Step(s, line, clock), id, rec.(trace := rec.trace + [entry]))
  {
    ProgressStep(s, line, clock, id, entry);
    StepConsistent(s, line, clock);
  }

  /**
   * After an open line and the first m lines of a stream in which the lines
   * carrying the id are exactly its progress lines, the id's in-flight record
   * holds the entries of the progress lines seen so far, in arrival order, and
   * only records of other ids have been completed.
   */
  lemma {:induction false} RequestInFlight(st: ParserState, open: string, mix: seq<string>,
                                           entries: seq<TraceEntry>, clock: Clock, h: Header, m: nat)
    requires Consistent(st) && MatchHeader(open) == Some(h) && h.marker == Open
    requires m <= |mix| && |IdLines(mix, h.contextId)| == |entries|
    requires forall k :: 0 <= k < |entries| ==> ProgressFor(IdLines(mix, h.contextId)[k], h.contextId, entries[k])
    ensures |IdLines(mix[..m], h.contextId)| <= |entries|
    ensures Tracks(st, Run(st, [open] + mix[..m], clock), h.contextId,
                   Statistic(h.contextId, clock(h.time), h.rest, entries[..|IdLines(mix[..m], h.contextId)|], None, 0))
    decreases m
  {
    if m == 0 {
      InFlightStart(st, open, mix, entries, clock, h);
    } else {
      RequestInFlight(st, open, mix, entries, clock, h, m - 1);
      InFlightNext(st, open, mix, entries, clock, h, m);
    }
  }

  lemma InFlightStart(st: ParserState, open: string, mix: seq<string>, entries: seq<TraceEntry>, clock: Clock, h: Header)
    requires Consistent(st) && MatchHeader(open) == Some(h) && h.marker == Open
    ensures |IdLines(mix[..0], h.contextId)| <= |entries|
    ensures Tracks(st, Run(st, [open] + mix[..0], clock), h.contextId,
                   Statistic(h.contextId, clock(h.time), h.rest, entries[..|IdLines(mix[..0], h.contextId)|], None, 0))
  {
    assert [open] + mix[..0] == [open] && mix[..0] == [];
    OpenStep(st, open, clock, h);
    RunConsistent(st, [open], clock);
    assert st.completed[..|st.completed|] == st.completed;
  }

  lemma InFlightNext(st: ParserState, open: string, mix: seq<string>, entries: seq<TraceEntry>,
                     clock: Clock, h: Header, m: nat)
    requires 0 < m <= |mix| && |IdLines(mix, h.contextId)| == |entries|
    requires forall k :: 0 <= k < |entries| ==> ProgressFor(IdLines(mix, h.contextId)[k], h.contextId, entries[k])
    requires |IdLines(mix[..m - 1], h.contextId)| <= |entries|
    requires Tracks(st, Run(st, [open] + mix[..m - 1], clock), h.contextId,
                    Statistic(h.contextId, clock(h.time), h.rest, entries[..|IdLines(mix[..m - 1], h.contextId)|], None, 0))
    ensures |IdLines(mix[..m], h.contextId)| <= |entries|
    ensures Tracks(st, Run(st, [open] + mix[..m], clock), h.contextId,
                   Statistic(h.contextId, clock(h.time), h.rest, entries[..|IdLines(mix[..m], h.contextId)|], None, 0))
  {
    var id, line := h.contextId, mix[m - 1];
    var c := |IdLines(mix[..m - 1], id)|;
    RunCons(st, open, mix, m, clock);
    IdLinesStep(mix, m, id);
    if Carries(line, id) {
      assert ProgressFor(IdLines(mix, id)[c], id, entries[c]);
    }
    AdvanceTrack(st, Run(st, [open] + mix[..m - 1], clock), line, clock, id, clock(h.time), h.rest,
                 entries, c, |IdLines(mix[..m], id)|);
  }

  /** How the id's lines grow when the prefix grows by one line. */
  lemma IdLinesStep(mix: seq<string>, m: nat, id: string)
    requires 0 < m <= |mix|
    ensures var c, line := |IdLines(mix[..m - 1], id)|, mix[m - 1];
      && |IdLines(mix[..m], id)| == (if Carries(line, id) then c + 1 else c)
      && (Carries(line, id) ==> c < |IdLines(mix, id)| && IdLines(mix, id)[c] == line)
  {
    var c, line := |IdLines(mix[..m - 1], id)|, mix[m - 1];
    assert mix[..m][..m - 1] == mix[..m - 1];
    IdLinesPrefix(mix, m, id);
    if Carries(line, id) {
      assert IdLines(mix[..m], id) == IdLines(mix[..m - 1], id) + [line];
      assert IdLines(mix, id)[c] == IdLines(mix[..m], id)[c];
    }
  }

  /** One more line keeps the id tracked, with one more entry exactly when the line carries the id. */
  lemma AdvanceTrack(st0: ParserState, mid: ParserState, line: string, clock: Clock, id: string,
                     start: int, name: string, entries: seq<TraceEntry>, c: nat, next: nat)
    requires c <= |entries| && next == (if Carries(line, id) then c + 1 else c)
    requires Tracks(st0, mid, id, Statistic(id, start, name, entries[..c], None, 0))
    requires Carries(line, id) ==> c < |entries| && ProgressFor(line, id, entries[c])
    ensures next <= |entries|
    ensures Tracks(st0, Step(mid, line, clock), id, Statistic(id, start, name, entries[..next], None, 0))
  {
    var rec := Statistic(id, start, name, entries[..c], None, 0);
    if Carries(line, id) {
      TrackProgress(st0, mid, line, clock, id, rec, entries[c]);
      TakeOneMore(entries, c);
    } else {
      TrackOther(st0, mid, line, clock, id, rec);
    }
  }

  /**
   * An open line, then any lines in which the ones carrying its id are exactly
   * its progress lines, then its close line: the id is no longer in flight, and
   * exactly one record with that id has been completed, the last one, whose trace
   * holds the progress entries in arrival order and whose elapsed time and return
   * code are the close line's.
   */
  lemma CompleteRequest(st: ParserState, open: string, mix: seq<string>, entries: seq<TraceEntry>,
                        close: string, clock: Clock, h: Header, elapsed: nat, returnCode: nat)
    requires Consistent(st) && MatchHeader(open) == Some(h) && h.marker == Open
    requires |IdLines(mix, h.contextId)| == |entries|
    requires forall k :: 0 <= k < |entries| ==> ProgressFor(IdLines(mix, h.contextId)[k], h.contextId, entries[k])
    requires CloseFor(close, h.contextId, elapsed, returnCode)
    ensures var next, n := Run(st, [open] + mix + [close], clock), |st.completed|;
      && h.contextId !in next.current
      && n < |next.completed| && next.completed[..n] == st.completed
      && next.completed[|next.completed| - 1]
           == Statistic(h.contextId, clock(h.time), h.rest, entries, Some(elapsed), returnCode)
      && forall k :: n <= k < |next.completed| - 1 ==> next.completed[k].contextId != h.contextId
  {
    RequestInFlight(st, open, mix, entries, clock, h, |mix|);
    WholePrefix(mix);
    WholePrefix(entries);
    var mid := Run(st, [open] + mix, clock);
    RunSnoc(st, [open] + mix, close, clock);
    CloseStep(mid, close, clock, h.contextId, elapsed, returnCode);
    CloseTracked(st, mid, Step(mid, close, clock), h.contextId,
                 Statistic(h.contextId, clock(h.time), h.rest, entries, None, 0), elapsed, returnCode);
  }

  /** Closing the tracked record appends it, finished, after the records of other ids. */
  lemma CloseTracked(st: ParserState, mid: ParserState, next: ParserState, id: string, rec: Statistic,
                     elapsed: nat, returnCode: nat)
    requires Tracks(st, mid, id, rec)
    requires next.current == mid.current - {id}
    requires next.completed == mid.completed + [rec.(elapsed := Some(elapsed), returnCode := returnCode)]
    ensures id !in next.current
    ensures |st.completed| < |next.completed| && next.completed[..|st.completed|] == st.completed
    ensures next.completed[|next.completed| - 1] == rec.(elapsed := Some(elapsed), returnCode := returnCode)
    ensures forall k :: |st.completed| <= k < |next.completed| - 1 ==> next.completed[k].contextId != id
  {
    PrefixOfPrefix(st.completed, mid.completed, next.completed);
    forall k | |st.completed| <= k < |next.completed| - 1 ensures next.completed[k].contextId != id {
      assert next.completed[k] == mid.completed[k];
    }
  }
}
