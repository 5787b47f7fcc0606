# groonga query-log analyzer, modelled in Dafny

This project models the analysis core of `tools/groonga-query-log-analyzer.rb`.
That tool reads groonga query logs, in which every request writes three kinds
of line: an open line (`>`, the raw command), progress lines (`:`, an offset
in nanoseconds and a label) and a close line (`<`, the elapsed time and
`rc=` return code). The lines carry a shared context id and are interleaved
with the lines of other requests. The model covers:

- **Log lines** (`log_line.dfy`, module `LogLine`). The timestamp / id /
  marker header pattern is modelled with the regular expression's exact
  semantics: a digit-run fraction, a lazy id that stops at the first `|`
  followed by a marker, and a stripped rest. The progress and close payload
  patterns are modelled too.
- **The demultiplexer** (`query_log_parser.dfy`, module `QueryLogParsing`).
  - `parse_line` is the method `ParseSession.ParseLine`. Its class has the
    in-flight table and the completed list as fields.
  - `parse` is `QueryLogParser.Parse`, a loop over the lines.
  - Both are proved against the state machine `NextState`/`Step`/`Run`.
  - Lemmas state what each kind of line does and what a whole stream does.
- **Commands** (`commands.dfy`, module `Commands`). This covers:
  - `CGI.unescape`;
  - `Command.parse`, including the `/d/` prefix, the `.output_type` suffix,
    last-occurrence-wins parameters and the `select` registration;
  - `SelectCommand`'s accessors and `conditions`.
- **Records and trace correlation** (`statistics.dfy`, module `Statistics`).
  This covers `Statistic#start`/`finish`, `each_trace_info` with relative
  elapsed times, and `trace_context`.
- **The reporter** (`reporter.dfy`, module `Reporting`). `QueryLogReporter`
  is a class with the memoised sorted list as a field. The model covers
  `order=`, `apply_options`, `sorted_statistics`, `each`, `sorter` and
  `slow?`.
- **Colours** (`colors.dfy`, module `Colors`). This covers `Color#sequence`,
  `MixColor#sequence`, `+` and `escape_sequence`: the parameter lists of
  ECMA-48 SGR (Select Graphic Rendition, section 8.3.117 of ECMA-48).
- Support modules: `Wrappers` (`Option`) and `RubyText`. `RubyText` holds
  Ruby's `strip`, `split`, `join`, `to_i` and `to_s` on byte strings.

Three points of the code that the model follows closely:

- Select handling is registered under the command name `select` (line 134).
  Only that name gets `SelectCommand`'s accessors and `conditions`.
- `sort_by` is not stable. The model promises only key order and a
  permutation, never the relative order of records with equal keys.
- `Command.parse` splits the raw command at the first `?` and then splits
  the second half on `&` (lines 106-108), so a raw command without `?`
  raises. So does a `&`-piece without `=`, because `CGI.unescape(nil)`
  raises (line 110). The model makes both a precondition of command
  decoding.

## Model

| member | source | states |
|---|---|---|
| LogLine.MatchHeader | tools/groonga-query-log-analyzer.rb:258-265 | a matched header is well formed (4-2-2 digit date, 2-2-2 time, digit fraction, newline-free id without a delimiter) and the line begins with that header's own rendering |
| LogLine.MatchHeaderRest | tools/groonga-query-log-analyzer.rb:265 | the `rest` of a matched header is the stripped text after the marker |
| LogLine.MatchFormatHead | tools/groonga-query-log-analyzer.rb:260-265 | a rendered header followed by any text (a trailing newline included) is matched back to that header, with the stripped text as its rest |
| LogLine.MatchFormatLine | tools/groonga-query-log-analyzer.rb:260-265 | every well-formed header, rendered as a log line, is matched back to exactly that header (timestamp fields, context id, marker and stripped rest) |
| LogLine.ParseProgress | tools/groonga-query-log-analyzer.rb:286-288 | a progress payload is accepted exactly when `\A(\d+) ` matches it, and then gives the value of the matched digits (leading zeros allowed) and the stripped text after the space |
| LogLine.ParseProgressFormat | tools/groonga-query-log-analyzer.rb:286-288 | a progress payload `<offset> <label>` reads back as that offset and the stripped label |
| LogLine.ParseClose | tools/groonga-query-log-analyzer.rb:293-295 | a close payload is accepted exactly when `\A(\d+) rc=(\d+)` matches it, and then gives the value of the first digit group and of the whole digit run after ` rc=` (the greedy second group) |
| LogLine.ParseCloseFormat | tools/groonga-query-log-analyzer.rb:293-295 | a close payload `<elapsed> rc=<code>` reads back as that elapsed time and return code, whatever non-digit text follows |
| RubyText.Strip | tools/groonga-query-log-analyzer.rb:265 | `strip` yields a slice of its input with no white space or NUL at either end, and leaves an already stripped string alone |
| RubyText.StripAt | tools/groonga-query-log-analyzer.rb:265 | the stripped text sits right after the leading run of white space and NUL, and only white space and NUL follow it |
| RubyText.StripEnd | tools/groonga-query-log-analyzer.rb:265 | the stripped text ends where the trailing run of white space and NUL starts, unless it is empty |
| RubyText.StripRemovesEnds | tools/groonga-query-log-analyzer.rb:146 | `strip` removes a run of white space and NUL at each end and nothing else |
| RubyText.DecimalRoundTrip | tools/groonga-query-log-analyzer.rb:291 | `to_i` of the decimal rendering of n is n |
| RubyText.SplitAll | tools/groonga-query-log-analyzer.rb:108 | the pieces between separators hold no separator and join back to the input |
| RubyText.DropTrailingEmpty | tools/groonga-query-log-analyzer.rb:108 | `split` without a limit keeps a prefix of the pieces, drops only empty ones, and does not end in an empty piece |
| RubyText.SplitJoin | tools/groonga-query-log-analyzer.rb:447-449 | splitting a join gives the parts back when no part holds the separator |
| Commands.Unescape | tools/groonga-query-log-analyzer.rb:110 | unescaping never lengthens a value and leaves a value without `%` or `+` unchanged |
| Commands.UnescapeEscape | tools/groonga-query-log-analyzer.rb:110 | `CGI.unescape` inverts form-encoding (`+` for space, upper-case `%XX` for other reserved bytes) on every byte string |
| Commands.UnescapeAnyEncoding | tools/groonga-query-log-analyzer.rb:110 | `CGI.unescape` reads back the bytes from any encoding of them: each byte written literally (unless it is `%` or `+`), as `+` for a space, or as `%` and two hex digits in either case |
| Commands.UnescapeExample | tools/groonga-query-log-analyzer.rb:110 | `%2b%20%41` decodes to `+ A`: lower-case hex, `%20` and an escaped unreserved byte are decoded |
| Commands.ParseParametersKeys | tools/groonga-query-log-analyzer.rb:107-111 | the parameter map has exactly the keys of the `&`-pieces |
| Commands.ParseParametersLastWins | tools/groonga-query-log-analyzer.rb:107-111 | a key maps to the unescaped value of its last occurrence |
| Commands.ParseCommand | tools/groonga-query-log-analyzer.rb:105-117 | the decoded command is a SelectCommand exactly when its name is `select` |
| Commands.ParseCommandName | tools/groonga-query-log-analyzer.rb:106-114 | the name is nil exactly when the path before `?` is empty once `/d/` is removed; otherwise it is the dot-free text before the first `.`, and a suffix after that `.` becomes `output_type` |
| Commands.ParseCommandParameters | tools/groonga-query-log-analyzer.rb:106-114 | every `&`-piece's key is a parameter, every parameter is such a key or `output_type`, each key's value is the unescaped last occurrence unless the suffix overrides `output_type`, and without a `.` in the name the map is exactly the pieces' map |
| Commands.ConnectiveFields | tools/groonga-query-log-analyzer.rb:145 | the fields are the text between the leftmost `&&`, `&!` and `\|\|` matches: each field is a prefix of the rest of the filter holding no connective start, followed by a connective or by the end of the filter |
| Commands.LeftmostSplitUnique | tools/groonga-query-log-analyzer.rb:145 | a filter has only one leftmost split, so the split is determined by the filter |
| Commands.ConnectiveFieldsCount | tools/groonga-query-log-analyzer.rb:145 | there are at most one more fields than connective occurrences |
| Commands.CleanCondition | tools/groonga-query-log-analyzer.rb:146-148 | a cleaned condition does not start with white space or `(`, and, when it holds no `(`, does not end with white space or `)` |
| Commands.CleanConditionRemovesEnds | tools/groonga-query-log-analyzer.rb:146-148 | cleaning keeps one contiguous piece of the field: only white space, NUL and `(` precede it, and only white space and NUL follow it, plus `)` when the piece holds no `(` |
| Commands.CleanConditionEnds | tools/groonga-query-log-analyzer.rb:146-148 | a cleaned condition that holds a `(` does not end with white space or NUL |
| Commands.CleanConditionCloseEnd | tools/groonga-query-log-analyzer.rb:146-148 | a cleaned condition ends inside what `strip` keeps, and when it holds no `(` only white space and `)` lie between it and the field's trailing white space |
| Commands.IsCleanedExactly | tools/groonga-query-log-analyzer.rb:146-148 | the description `IsCleaned` (where the condition sits in its field, how it starts and ends, what may follow it) holds for exactly one string, the cleaned condition |
| Commands.Conditions | tools/groonga-query-log-analyzer.rb:144-151 | no condition starts with white space or `(` |
| Commands.ConditionsCount | tools/groonga-query-log-analyzer.rb:144-151 | `conditions` yields at most connectives + 1 elements |
| Commands.ConditionsShape | tools/groonga-query-log-analyzer.rb:144-151 | `conditions` cleans, one to one, the fields of the filter's unique leftmost split (trailing empty fields dropped), each condition being the one cleaning of its field (`IsCleaned`, which `IsCleanedExactly` shows pins it) and a slice of the filter |
| Commands.ConditionsExample | tools/groonga-query-log-analyzer.rb:144-151 | the filter `a=1 && b=2` gives the conditions `a=1` and `b=2` |
| Statistics.Started | tools/groonga-query-log-analyzer.rb:161-174 | a new record carries its id, start time and raw command, has an empty trace and return code 0, and is unfinished |
| Statistics.AddTrace | tools/groonga-query-log-analyzer.rb:291 | `trace <<` appends exactly the one entry and changes nothing else in the record |
| Statistics.Finish | tools/groonga-query-log-analyzer.rb:176-179 | `finish` sets the elapsed time and return code, making the record finished, and changes nothing else |
| Statistics.SelectCommandOf | tools/groonga-query-log-analyzer.rb:236-239 | the select command is present exactly when the decoded name is `select`, and it is then the decoded command itself |
| Statistics.TraceContext | tools/groonga-query-log-analyzer.rb:221-234 | a label with no phase prefix is its own context, and a `filter(` context is one of the command's conditions |
| Commands.Parameter | tools/groonga-query-log-analyzer.rb:136-155 | `sortby`, `scorer` and `output_columns` read one key of the parameter table: a value exactly when the key is present, that key's value, and nil otherwise |
| Statistics.EachTraceInfo | tools/groonga-query-log-analyzer.rb:193-210 | one info per trace entry |
| Statistics.EachTraceInfoAt | tools/groonga-query-log-analyzer.rb:193-210 | the info for entry k holds its index, offset, label, context and the offset minus the previous offset (0 before the first) |
| Statistics.TraceInfosFrom | tools/groonga-query-log-analyzer.rb:196-209 | the loop from entry i on yields one info per remaining entry |
| Statistics.TraceInfoAt | tools/groonga-query-log-analyzer.rb:196-209 | with running `previous_elapsed`, the info for entry k is the one the loop yields first when started at k from the offset of entry k - 1 (from the given start value at i) |
| Statistics.RelativeElapsedSum | tools/groonga-query-log-analyzer.rb:194-198 | the relative elapsed times add up to the last offset (0 for an empty trace) |
| Statistics.FilterContextByIndex | tools/groonga-query-log-analyzer.rb:223-224 | a `filter(` entry at index k is described by `conditions[k]`, nil past the last condition |
| Statistics.ClauseContexts | tools/groonga-query-log-analyzer.rb:225-230 | `sort(`, `score(` and `output(` labels are described by `sortby`, `scorer` and `output_columns` |
| Statistics.PlainCommandContexts | tools/groonga-query-log-analyzer.rb:221-239 | for a command that is not `select`, every entry's context is its own label |
| QueryLogParsing.NextState | tools/groonga-query-log-analyzer.rb:278-301 | only a close line changes the completed list, by one record whose id it removes from the table (or changes nothing); an open line leaves its id in flight |
| QueryLogParsing.Step | tools/groonga-query-log-analyzer.rb:258-301 | a line that does not match the header pattern changes nothing, and a line appends at most one record |
| QueryLogParsing.Run | tools/groonga-query-log-analyzer.rb:258-271 | lines append at most one completed record each |
| QueryLogParsing.ParseSession.constructor | tools/groonga-query-log-analyzer.rb:256-257 | a parse starts with an empty in-flight table and an empty completed list |
| QueryLogParsing.ParseSession.ReadLine | tools/groonga-query-log-analyzer.rb:258-270 | one turn of the `each_line` block: a line matching the header pattern goes to `parse_line` with its fields, any other line changes nothing; the new state is the state machine's step on that line |
| QueryLogParsing.ParseSession.ParseLine | tools/groonga-query-log-analyzer.rb:278-301 | `parse_line` updates the in-flight table and completed list exactly as the state machine's step for that header |
| QueryLogParsing.QueryLogParser.Parse | tools/groonga-query-log-analyzer.rb:255-275 | after parsing a file, the shared list is the old list followed by the records the file completed, in close order |
| QueryLogParsing.IgnoredLine | tools/groonga-query-log-analyzer.rb:258-297 | a non-matching line, a malformed progress or close payload, or an id without an in-flight record leaves table and list unchanged |
| QueryLogParsing.OpenLine | tools/groonga-query-log-analyzer.rb:281-284 | an open line installs a fresh record (timestamp as start time, rest as raw command, empty trace, return code 0) for its id, replacing an earlier one, and touches nothing else |
| QueryLogParsing.ProgressLine | tools/groonga-query-log-analyzer.rb:285-291 | a valid progress line appends one (offset, label) entry to its record's trace and changes no other record and not the list |
| QueryLogParsing.CloseLine | tools/groonga-query-log-analyzer.rb:292-299 | a valid close line removes its id, sets elapsed and return code, and appends the record to the list |
| QueryLogParsing.RunConsistent | tools/groonga-query-log-analyzer.rb:282-296 | every in-flight record is filed under its own context id, before and after any lines |
| QueryLogParsing.StepCompleted | tools/groonga-query-log-analyzer.rb:292-299 | a line leaves the completed list alone or appends one finished record whose id that line closes |
| QueryLogParsing.RunAppendsFinished | tools/groonga-query-log-analyzer.rb:258-299 | the completed list only grows at its end, and every record in it is finished |
| QueryLogParsing.ParsedAreFinished | tools/groonga-query-log-analyzer.rb:255-275 | every record a parse hands over has an elapsed time |
| QueryLogParsing.UnclosedIsDropped | tools/groonga-query-log-analyzer.rb:272-299 | a request that no line closes never reaches the completed list |
| QueryLogParsing.StepOther | tools/groonga-query-log-analyzer.rb:258-301 | a line that does not carry an id leaves that id's in-flight record, or its absence, as it was |
| QueryLogParsing.OtherLines | tools/groonga-query-log-analyzer.rb:258-301 | lines that do not carry an id leave that id's in-flight record, or its absence, as it was, and append only records with other ids |
| QueryLogParsing.IdLinesPrefix | tools/groonga-query-log-analyzer.rb:258-265 | the lines carrying an id among the first m lines are the first of that id's lines |
| QueryLogParsing.RequestInFlight | tools/groonga-query-log-analyzer.rb:281-291 | after an open line and any interleaved lines in which the id's lines are its progress lines, the id's record holds the entries seen so far in arrival order, and only records with other ids were completed |
| QueryLogParsing.CompleteRequest | tools/groonga-query-log-analyzer.rb:281-299 | an open line, then other requests' lines interleaved with its progress lines, then its close line: exactly one record with that id is completed, last, with the entries in arrival order and the close line's elapsed time and return code, and the id is no longer in flight |
| Reporting.SortBy | tools/groonga-query-log-analyzer.rb:329 | `sort_by` keeps the number of records |
| Reporting.SortByPermutes | tools/groonga-query-log-analyzer.rb:329 | `sort_by` returns a permutation of the records |
| Reporting.SortBySorted | tools/groonga-query-log-analyzer.rb:329 | `sort_by` returns the records in non-decreasing key order |
| Reporting.InsertBySorted | tools/groonga-query-log-analyzer.rb:329 | inserting into a key-sorted list keeps it key-sorted |
| Reporting.SortKeyAsWritten | tools/groonga-query-log-analyzer.rb:340-359 | the key as written raises exactly for `-start-time`; `elapsed` and `-elapsed` both use the negated elapsed time, and every other order the start time |
| Reporting.SortedAsWritten | tools/groonga-query-log-analyzer.rb:327-359 | `sorted_statistics` with the `sorter` as written fails exactly for `-start-time` on a non-empty list; otherwise it is a permutation, longest first for both `elapsed` and `-elapsed`, and earliest first for every other order |
| Reporting.LatestFirstFailsAsWritten | tools/groonga-query-log-analyzer.rb:350-353 | as written, `-start-time` makes `sorted_statistics` raise on any non-empty report |
| Reporting.ElapsedDescendsAsWritten | tools/groonga-query-log-analyzer.rb:342-349 | as written, `elapsed` puts a 2 ns request before a 1 ns one, exactly as `-elapsed` does |
| Reporting.SortKey | tools/groonga-query-log-analyzer.rb:340-359 | the corrected key (see Findings) compares records by elapsed time ascending for `elapsed`, descending for `-elapsed`, by start time descending for `-start-time`, and ascending otherwise |
| Reporting.OrderMeaning | tools/groonga-query-log-analyzer.rb:340-359 | with the corrected key, the sorted list is a permutation: shortest first for `elapsed`, longest first for `-elapsed`, latest first for `-start-time`, earliest first otherwise |
| Reporting.EachShowsTop | tools/groonga-query-log-analyzer.rb:332-337 | with the corrected key, `each` shows min(n_entries, size) records, none when n_entries <= 0, and none left out sorts before a shown one |
| Reporting.QueryLogReporter.constructor | tools/groonga-query-log-analyzer.rb:308-314 | defaults: order `-elapsed`, 10 entries, 0.05 s threshold, nothing memoised |
| Reporting.QueryLogReporter.SetOrder | tools/groonga-query-log-analyzer.rb:322-326 | setting the current order keeps the memoised list, and a new order clears it |
| Reporting.QueryLogReporter.ApplyOptions | tools/groonga-query-log-analyzer.rb:316-320 | each missing option keeps its current value |
| Reporting.QueryLogReporter.SortedStatistics | tools/groonga-query-log-analyzer.rb:328-330 | returns, and memoises, the records sorted by the corrected key of the current order |
| Reporting.QueryLogReporter.Each | tools/groonga-query-log-analyzer.rb:332-337 | yields exactly the first min(n_entries, size) records sorted by the corrected key, none when n_entries <= 0 |
| Reporting.SlowIsUpwardClosed | tools/groonga-query-log-analyzer.rb:361-363 | in integer nanoseconds, the threshold itself is slow, anything below it is not, and anything longer than a slow time is slow (the float comparison of the source can differ at the threshold itself) |
| Colors.NewColor | tools/groonga-query-log-analyzer.rb:372-380 | a colour is foreground unless told otherwise; intensity, bold, italic and underline are off unless told otherwise |
| Colors.NameIndex | tools/groonga-query-log-analyzer.rb:418 | the index of a known name in `NAMES`, nil for any other name |
| Colors.Sequence | tools/groonga-query-log-analyzer.rb:410-424 | every SGR parameter of a colour is a non-empty decimal numeral |
| Colors.Switches | tools/groonga-query-log-analyzer.rb:421-423 | `1`, `3` and `4` appear exactly when bold, italic and underline are set |
| Colors.SequenceMeaning | tools/groonga-query-log-analyzer.rb:410-424 | `none` gives only the switches and `reset` leads with `0`; a known name leads with SGR code 10 * (3 or 4, plus 6 if intense) + its index |
| Colors.PlusSequence | tools/groonga-query-log-analyzer.rb:430-453 | a combination paints the left operand's parameters, then the right one's |
| Colors.PlusAssociative | tools/groonga-query-log-analyzer.rb:430-453 | however a chain of colours is grouped, it paints the same parameters |
| Colors.PainterSequence | tools/groonga-query-log-analyzer.rb:441-445 | every parameter of a colour or a mix is a non-empty decimal numeral |
| Colors.EscapeSequence | tools/groonga-query-log-analyzer.rb:447-449 | an escape sequence is `ESC [`, the parameters, then `m`, and `ESC [ m` when there are none |
| Colors.EscapeRoundTrip | tools/groonga-query-log-analyzer.rb:447-449 | a non-empty escape sequence reads back as the painter's parameter list |

## Left out

- Threads, `Thread#join` and the mutex (lines 17-27, 251, 272-274) are not
  modelled. Each file's parse is a call to `Parse`, and the merge under the
  lock is the append it ends with.
- `Time.local` is a function parameter (`Clock`) from the timestamp's digit
  groups to an integer, so time zones are not modelled. That the call can
  raise on an invalid date is not modelled either.
- Start times are integers, not `Time` objects, so `end_time` and
  `strftime` are not modelled.
- Floating point is not modelled: `nano_seconds_to_seconds`,
  `elapsed_in_seconds`, `end_time`, the `%8.8f` formatting and the digit
  width from `Math.log10`. Elapsed times and offsets stay in integer
  nanoseconds.
- Reporting.SlowIsUpwardClosed: `slow?` is modelled by comparing integer
  nanoseconds with an integer nanosecond threshold. The source compares float
  seconds (`nano_seconds / 1000.0 / 1000.0 / 1000.0`) with a `Float` threshold,
  and that division rounds. The two comparisons can therefore differ for an
  elapsed time at the threshold itself. For example, 9000 ns becomes
  `8.999999999999999e-06` s, which is not slow against a 9 µs threshold,
  while the model counts the threshold itself as slow.
- Output is not modelled: `report`, `format_heading`, `colorize`, the
  console reporter's colour table and terminal detection.
- Option parsing (`setup_options`), file and stdin reading, and `SizedStatistics` (unused) are not modelled.
- Reporting.QueryLogReporter.SortedStatistics: sorts with the corrected key
  `SortKey`, not the key of lines 340-359. For `elapsed` it gives the shortest
  request first where the source gives the longest first, and for
  `-start-time` it gives the latest first where the source raises on any
  non-empty report. `SortedAsWritten` is the as-written behaviour (see
  Findings).
- Reporting.QueryLogReporter.Each: yields a prefix of the list sorted by the
  corrected key, so for `elapsed` and `-start-time` it differs from what the
  source yields, as for `SortedStatistics`.
- Reporting.EachShowsTop: states the top records for the corrected key, so for
  `elapsed` it describes the shortest requests where the source shows the
  longest.
- Reporting.SortBy: Ruby's `sort_by` is not stable. This model sorts
  stably, but the contracts promise only the key order and a permutation.
  Which of several equal-key records comes first is not modelled.
- Statistics are values. The source moves one `Statistic` object from the
  in-flight table (line 296 deletes it) to the completed list (line 299
  appends it), and never changes it afterwards, so copying it is the same.
- `Statistic#command` memoises its decoding. The model decodes on demand,
  which gives the same result.
- Commands.ParseCommand requires a `?` in the path and a `=` in every
  `&`-piece. The source raises without them.
- Statistics.EachTraceInfo requires that every phase label belongs to a
  `select` command, and that `filter(` labels come with a `filter`
  parameter. The source dereferences nil otherwise.
- Reporting.QueryLogReporter.constructor requires finished records, as the
  parser produces them. The elapsed-time keys would raise on an unfinished
  record (`-nil`).
- Hash iteration order of the parameter map is not modelled. It is a `map`.
- RubyText.Strip counts NUL as removable, as `String#strip` does, on both
  ends.
- Lines are sequences of characters, read as bytes. Ruby's `=~` and
  `split` raise `ArgumentError` on a line that is not valid in the default
  external encoding; the model accepts such lines like any other. For valid
  UTF-8 the results agree, because every delimiter the patterns look for is
  ASCII and `\s` and `strip` remove ASCII characters only.

## Findings

| source | as written | input that shows it | evidently intended | confidence | as-written member | corrected member |
|---|---|---|---|---|---|---|
| tools/groonga-query-log-analyzer.rb:350-353 | the `-start-time` key negates a `Time`, which has no unary minus, so sorting raises `NoMethodError` | any non-empty report with `--order=-start-time` | latest start time first | high; not executed | Reporting.LatestFirstFailsAsWritten | Reporting.OrderMeaning |
| tools/groonga-query-log-analyzer.rb:342-349 | `elapsed` uses the same key as `-elapsed` (longest first) | two requests taking 1 ns and 2 ns, `--order=elapsed`: the 2 ns one comes first | shortest first, mirroring `start-time` / `-start-time` | medium; not executed | Reporting.ElapsedDescendsAsWritten | Reporting.OrderMeaning |
