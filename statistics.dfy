/**
 * A request reconstructed from the log (`Statistic`) and the correlation of its
 * trace entries with the clauses of its `select` command (`each_trace_info`,
 * `trace_context`). Offsets and elapsed times are integer nanoseconds.
 */
module Statistics {
  import opened Wrappers
  import opened RubyText
  import opened Commands

  /** One progress entry: nanoseconds since the request opened, and its label. */
  datatype TraceEntry = TraceEntry(offset: nat, traceLabel: string)

  /**
   * `elapsed` is None (Ruby's nil) until the close line sets it;
   * `returnCode` is 0 until then.
   */
  datatype Statistic = Statistic(
    contextId: string,
    startTime: int,
    rawCommand: string,
    trace: seq<TraceEntry>,
    elapsed: Option<nat>,
    returnCode: nat)

  /** `Statistic.new(context_id)` followed by `start(start_time, command)`. */
  function Started(contextId: string, startTime: int, rawCommand: string): (r: Statistic)
    ensures r.contextId == contextId && r.startTime == startTime && r.rawCommand == rawCommand
    ensures r.trace == [] && !IsFinished(r) && r.returnCode == 0
  {
    Statistic(contextId, startTime, rawCommand, [], None, 0)
  }

  /** `statistic.trace << [elapsed, label]`. */
  function AddTrace(s: Statistic, entry: TraceEntry): (r: Statistic)
    ensures |r.trace| == |s.trace| + 1 && r.trace[..|s.trace|] == s.trace && r.trace[|s.trace|] == entry
    ensures r.(trace := s.trace) == s
  {
    s.(trace := s.trace + [entry])
  }

  /** `Statistic#finish`. */
  function Finish(s: Statistic, elapsed: nat, returnCode: nat): (r: Statistic)
    ensures IsFinished(r) && r.elapsed.value == elapsed && r.returnCode == returnCode
    ensures r.(elapsed := s.elapsed, returnCode := s.returnCode) == s
  {
    s.(elapsed := Some(elapsed), returnCode := returnCode)
  }

  predicate IsFinished(s: Statistic) { s.elapsed.Some? }

  /** `Statistic#command`: the decoded raw command. */
  function CommandOf(s: Statistic): Command
    requires Parsable(s.rawCommand)
  {
    ParseCommand(s.rawCommand)
  }

  /** `@select_command` once `ensure_parse_command` has run: set only for a `select` command. */
  function SelectCommandOf(s: Statistic): (r: Option<Command>)
    requires Parsable(s.rawCommand)
    ensures r.Some? <==> CommandOf(s).name == Some("select")
    ensures r.Some? ==> IsSelect(r.value) && r.value == CommandOf(s)
  {
    if CommandOf(s).name == Some("select") then Some(CommandOf(s)) else None
  }

  /** The label prefixes `trace_context` recognises. */
  datatype Phase = FilterPhase | SortPhase | ScorePhase | OutputPhase | OtherPhase

  function PhaseOf(text: string): Phase {
    if StartsWith(text, "filter(") then FilterPhase
    else if StartsWith(text, "sort(") then SortPhase
    else if StartsWith(text, "score(") then ScorePhase
    else if StartsWith(text, "output(") then OutputPhase
    else OtherPhase
  }

  /**
   * What `trace_context` needs not to raise: a phase label dereferences
   * `@select_command`, which is nil unless the command is `select`, and a
   * filter label calls `conditions`, which needs the `filter` parameter.
   */
  predicate Resolvable(text: string, select: Option<Command>) {
    PhaseOf(text) != OtherPhase ==>
      && select.Some? && IsSelect(select.value)
      && (PhaseOf(text) == FilterPhase ==> "filter" in select.value.parameters)
  }

  /** `trace_context(label, i)`; None stands for nil (a missing parameter or condition). */
  function TraceContext(text: string, i: nat, select: Option<Command>): (r: Option<string>)
    requires Resolvable(text, select)
    ensures PhaseOf(text) == OtherPhase ==> r == Some(text)
    ensures PhaseOf(text) == FilterPhase && r.Some? ==> r.value in Conditions(select.value)
  {
    match PhaseOf(text)
    case FilterPhase =>
      var conditions := Conditions(select.value);
      if i < |conditions| then Some(conditions[i]) else None
    case SortPhase => Parameter(select.value, "sortby")
    case ScorePhase => Parameter(select.value, "scorer")
    case OutputPhase => Parameter(select.value, "output_columns")
    case OtherPhase => Some(text)
  }

  /** What `each_trace_info` yields per entry (the float conversions left aside). */
  datatype TraceInfo = TraceInfo(i: nat, elapsed: nat, relativeElapsed: int, traceLabel: string, context: Option<string>)

  /** The offset before entry k: that of entry k - 1, and 0 before the first. */
  function PreviousOffset(trace: seq<TraceEntry>, k: nat): nat
    requires k < |trace|
  {
    if k == 0 then 0 else trace[k - 1].offset
  }

  /** The loop of `each_trace_info` from entry i on, `previous` being the running `previous_elapsed`. */
  function TraceInfosFrom(trace: seq<TraceEntry>, i: nat, previous: int, select: Option<Command>): (r: seq<TraceInfo>)
    requires i <= |trace|
    requires forall k :: i <= k < |trace| ==> Resolvable(trace[k].traceLabel, select)
    ensures |r| == |trace| - i
    decreases |trace| - i
  {
    if i == |trace| then []
    else
      var e := trace[i];
      [TraceInfo(i, e.offset, e.offset - previous, e.traceLabel, TraceContext(e.traceLabel, i, select))]
        + TraceInfosFrom(trace, i + 1, e.offset, select)
  }

  /** The info the loop yields for entry k is the head of the loop started at k with the offset before it. */
  lemma {:induction false} TraceInfoAt(trace: seq<TraceEntry>, i: nat, previous: int, select: Option<Command>, k: nat)
    requires i <= k < |trace|
    requires forall j :: i <= j < |trace| ==> Resolvable(trace[j].traceLabel, select)
    ensures TraceInfosFrom(trace, i, previous, select)[k - i]
         == TraceInfosFrom(trace, k, if k == i then previous else trace[k - 1].offset, select)[0]
    decreases k - i
  {
    if k > i {
      TraceInfoAt(trace, i + 1, trace[i].offset, select, k);
      TraceInfosFromTail(trace, i, previous, select);
      var r := TraceInfosFrom(trace, i, previous, select);
      assert r[k - i] == r[1..][k - i - 1];
    }
  }

  lemma TraceInfosFromHead(trace: seq<TraceEntry>, i: nat, previous: int, select: Option<Command>)
    requires i < |trace|
    requires forall j :: i <= j < |trace| ==> Resolvable(trace[j].traceLabel, select)
    ensures var e := trace[i];
      TraceInfosFrom(trace, i, previous, select)[0]
        == TraceInfo(i, e.offset, e.offset - previous, e.traceLabel, TraceContext(e.traceLabel, i, select))
  {
  }

  lemma TraceInfosFromTail(trace: seq<TraceEntry>, i: nat, previous: int, select: Option<Command>)
    requires i < |trace|
    requires forall j :: i <= j < |trace| ==> Resolvable(trace[j].traceLabel, select)
    ensures TraceInfosFrom(trace, i, previous, select)[1..] == TraceInfosFrom(trace, i + 1, trace[i].offset, select)
  {
  }

  /** `each_trace_info` can run to the end without raising. */
  predicate CanCorrelate(s: Statistic) {
    && Parsable(s.rawCommand)
    && forall k :: 0 <= k < |s.trace| ==> Resolvable(s.trace[k].traceLabel, SelectCommandOf(s))
  }

  /** `each_trace_info`: one info per trace entry. */
  function EachTraceInfo(s: Statistic): (r: seq<TraceInfo>)
    requires CanCorrelate(s)
    ensures |r| == |s.trace|
  {
    TraceInfosFrom(s.trace, 0, 0, SelectCommandOf(s))
  }

  /**
   * The info for entry k, in order: its index, its offset, the difference to
   * the previous offset (0 before the first), its label and its context.
   */
  lemma EachTraceInfoAt(s: Statistic, k: nat)
    requires CanCorrelate(s) && k < |s.trace|
    ensures var e := s.trace[k];
      EachTraceInfo(s)[k]
        == TraceInfo(k, e.offset, e.offset - PreviousOffset(s.trace, k), e.traceLabel,
                     TraceContext(e.traceLabel, k, SelectCommandOf(s)))
  {
    TraceInfoAt(s.trace, 0, 0, SelectCommandOf(s), k);
    TraceInfosFromHead(s.trace, k, PreviousOffset(s.trace, k), SelectCommandOf(s));
  }

  function SumRelative(infos: seq<TraceInfo>): int {
    if infos == [] then 0 else SumRelative(infos[..|infos| - 1]) + infos[|infos| - 1].relativeElapsed
  }

  /** The relative times add up to the offset of the last entry. */
  lemma RelativeElapsedSum(s: Statistic)
    requires CanCorrelate(s)
    ensures SumRelative(EachTraceInfo(s)) == if s.trace == [] then 0 else s.trace[|s.trace| - 1].offset
  {
    var infos := EachTraceInfo(s);
    forall k | 0 <= k < |infos| ensures infos[k].relativeElapsed == s.trace[k].offset - PreviousOffset(s.trace, k) {
      EachTraceInfoAt(s, k);
    }
    Telescope(infos, s.trace, |infos|);
    assert infos[..|infos|] == infos;
  }

  lemma {:induction false} Telescope(infos: seq<TraceInfo>, trace: seq<TraceEntry>, n: nat)
    requires |infos| == |trace| && n <= |infos|
    requires forall k :: 0 <= k < |infos| ==> infos[k].relativeElapsed == trace[k].offset - PreviousOffset(trace, k)
    ensures SumRelative(infos[..n]) == if n == 0 then 0 else trace[n - 1].offset
  {
    if n > 0 {
      Telescope(infos, trace, n - 1);
      TelescopeStep(infos, trace, n);
    }
  }

  lemma TelescopeStep(infos: seq<TraceInfo>, trace: seq<TraceEntry>, n: nat)
    requires |infos| == |trace| && 0 < n <= |infos|
    requires infos[n - 1].relativeElapsed == trace[n - 1].offset - PreviousOffset(trace, n - 1)
    requires SumRelative(infos[..n - 1]) == if n - 1 == 0 then 0 else trace[n - 2].offset
    ensures SumRelative(infos[..n]) == if n == 0 then 0 else trace[n - 1].offset
  {
    assert infos[..n][..n - 1] == infos[..n - 1];
  }

  /** A `filter(` entry is described by the condition at the entry's own index, nil past the last condition. */
  lemma FilterContextByIndex(s: Statistic, k: nat)
    requires CanCorrelate(s) && k < |s.trace| && StartsWith(s.trace[k].traceLabel, "filter(")
    ensures SelectCommandOf(s).Some?
    ensures var conditions := Conditions(SelectCommandOf(s).value);
      EachTraceInfo(s)[k].context == if k < |conditions| then Some(conditions[k]) else None
  {
    assert Resolvable(s.trace[k].traceLabel, SelectCommandOf(s));
    EachTraceInfoAt(s, k);
  }

  /** A record whose command is not `select` describes every trace entry by its own label. */
  lemma PlainCommandContexts(s: Statistic)
    requires CanCorrelate(s) && SelectCommandOf(s).None?
    ensures forall k :: 0 <= k < |s.trace| ==> EachTraceInfo(s)[k].context == Some(s.trace[k].traceLabel)
  {
    forall k | 0 <= k < |s.trace| ensures EachTraceInfo(s)[k].context == Some(s.trace[k].traceLabel) {
      assert Resolvable(s.trace[k].traceLabel, SelectCommandOf(s));
      EachTraceInfoAt(s, k);
    }
  }

  /** Labels starting `sort(`, `score(` and `output(` are described by the select command's matching parameter. */
  lemma ClauseContexts(text: string, i: nat, select: Option<Command>)
    requires Resolvable(text, select)
    ensures StartsWith(text, "sort(") ==> TraceContext(text, i, select) == Parameter(select.value, "sortby")
    ensures StartsWith(text, "score(") ==> TraceContext(text, i, select) == Parameter(select.value, "scorer")
    ensures StartsWith(text, "output(") ==> TraceContext(text, i, select) == Parameter(select.value, "output_columns")
  {
    PhaseOfPrefixes(text);
  }

  lemma PhaseOfPrefixes(text: string)
    ensures StartsWith(text, "sort(") ==> PhaseOf(text) == SortPhase
    ensures StartsWith(text, "score(") ==> PhaseOf(text) == ScorePhase
    ensures StartsWith(text, "output(") ==> PhaseOf(text) == OutputPhase
  {
    if StartsWith(text, "sort(") || StartsWith(text, "score(") || StartsWith(text, "output(") {
      assert !StartsWith(text, "filter(") by {
        if |text| >= 7 { assert text[..7][0] == text[0]; }
      }
    }
    if StartsWith(text, "score(") {
      assert !StartsWith(text, "sort(") by { assert text[..6][1] == text[1]; }
    }
  }
}
