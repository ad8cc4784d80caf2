# Audit log analysis, modelled in Dafny

This project models the processing core of an audit-log analyser. The analyser
reads an export of directory-server audit records and reports latency
statistics for them.

The processing core has three parts.

1. **Preprocessor.** Every `--` in the raw export becomes a line break.
2. **Event parser.** The preprocessed text is stripped and split into lines.
   - A line `AuditV3` opens a record. The next two lines are taken verbatim as
     the record's `timestamp` and `operation_type`.
   - Every other line is split at its first `": "` into a key and a value.
     A key seen again in the same record turns into an ordered list of values.
   - A record is finalised when the next marker or the end of input is reached.
     Finalising parses `timestamp` and `received` and stores their distance in
     whole milliseconds as `ExecutionTime`.
3. **Four reducers** over the events:
   - per-operation-type counts with truncated mean execution times, plus the
     overall truncated mean;
   - the N slowest events, by a stable descending sort;
   - a tally of the attribute names in `filter` strings (every `(name=`),
     sorted by count;
   - a per-operation-type histogram over a list of millisecond thresholds.

An event is a map from key to a tagged value, `Single(text)` or
`Multi(texts)`, plus its execution time. Where the program raises an
exception, the model returns a `Result` failure instead:

- a missing or unparsable timestamp (`ParseError`);
- a marker without two lines after it;
- an event without a plain `operation_type`;
- a `filter` that is a list;
- an empty event list given to the average.

The parser and the three counting reducers are loops in the program, so they
are methods with loop invariants here. Each method is proved equal to, or
described by, a specification function. Properties of the whole computation
are lemmas about those functions.

Modules:

- `Preprocess` (`preprocess.dfy`)
- `Text` (`text.dfy`: strip and split)
- `Events` (`events.dfy`: attribute lines and finalisation)
- `Parser` (`parser.dfy`)
- `Tally` (`tally.dfy`: counting and counter dictionaries)
- `Sorting` (`sorting.dfy`: Python's stable `sorted(..., reverse=True)`)
- `Latency` (`latency.dfy`)
- `TopEvents` (`top_events.dfy`)
- `FilterAttrs` (`filter_attrs.dfy`)
- `Distribution` (`distribution.dfy`)
- `Scenario` (`scenario.dfy`: one worked record)
- `Wrappers` (`wrappers.dfy`: `Option`, `Result`)

Where a description of the program and its code differ, the model follows the
code:

- **Lines before the first marker are not skipped.** They go into the
  initially empty record, and that record is finalised at the first marker like
  any other. The parse therefore fails unless those lines supply both
  timestamps.
- **The two lines after a marker are consumed even when they are themselves
  `AuditV3`.** The event count equals the marker count only when no marker
  stands in a header position. `Parser.EventCount` assumes this.
- **Attribute ties in the filter summary keep first-seen order.** The dictionary
  keeps insertion order and the sort is stable.
- **Distribution thresholds need not be ascending.** The event goes under the
  first threshold in list order that is not below its time. This is the
  smallest such threshold only when the list is ascending
  (`Distribution.BucketLeast`).

## Model

| member | source | states |
|---|---|---|
| Preprocess.ReplaceDelimiter | audit_log_analysis.py:20 | the result contains no `--`, is no longer than the input, and starts with a line break or with the input's first character |
| Preprocess.CleanTextUnchanged | audit_log_analysis.py:20 | text without `--` comes back unchanged |
| Preprocess.Idempotent | audit_log_analysis.py:20 | replacing twice gives the same text as replacing once |
| Preprocess.ReplacementCount | audit_log_analysis.py:20 | the output has one more line break for every character the replacement removed, so each `--` becomes exactly one `\n` |
| Text.Strip | audit_log_analysis.py:32 | the result is an infix of the input with only whitespace cut off on either side, and neither starts nor ends with whitespace |
| Text.Split | audit_log_analysis.py:32 | the list of pieces is never empty, no piece holds the separator, and joining the pieces with the separator gives back the input |
| Text.SplitJoin | audit_log_analysis.py:32 | splitting a join of separator-free pieces gives back those pieces |
| Events.FindSeparator | audit_log_analysis.py:44 | the result is the first position at or after `from` where `": "` starts, or none when there is no such position |
| Events.SplitAttribute | audit_log_analysis.py:44-46 | a line yields a key and a value exactly when it contains `": "`; key, `": "` and value make up the line; the key holds no `": "`, so the value keeps any later one |
| Events.AddAttribute | audit_log_analysis.py:44-56 | a line without `": "` changes nothing; otherwise its key is added, other keys keep their values, the key's values are the earlier ones followed by the new one, and the value is a plain string exactly when the key was new |
| Events.AddAttributeKey | audit_log_analysis.py:44-56 | one line makes a key present iff it was or the line names it, appends the line's value to its values, and leaves it plain exactly when it was new and gets one value |
| Events.Accumulate | audit_log_analysis.py:44-56 | after a record body, a key is present iff it was before or a line names it; its values are the earlier ones followed by the body's in encounter order; it stays a plain string exactly when it occurs once in all |
| Events.SnocTypes | audit_log_analysis.py:76 | appending an event with a plain operation type appends that type to the list of operation types |
| Events.TimeOf | audit_log_analysis.py:60-61 | a timestamp is read iff its key is present, holds a plain string and the parser accepts it; the error says which of these failed |
| Events.Finalize | audit_log_analysis.py:58-64 | finalising succeeds iff `timestamp` and then `received` are read; a `timestamp` error is reported first; the event keeps the record's attributes (a body `ExecutionTime` line being replaced), and its execution time is the distance of the two timestamps in truncated milliseconds, so never negative |
| Parser.NextMarker | audit_log_analysis.py:58 | the first position at or after `from` that holds a marker or is the end of input, with no marker before it |
| Parser.ParseLogLines | audit_log_analysis.py:29-66 | the index-driven loop over the lines returns exactly the record-by-record reading `ParseLines`: every marker opens a record with the next two lines as header, and each record is finalised at the next marker or at the end |
| Parser.ParseLog | audit_log_analysis.py:32-66 | the parse of a text is the loop applied to its stripped text split at line breaks |
| Parser.RecordsWellTimed | audit_log_analysis.py:58-64 | every event parsed from a marker on carries two readable timestamps and their distance in truncated milliseconds |
| Parser.AllEventsWellTimed | audit_log_analysis.py:58-64 | on success, every event carries two readable timestamps, and its execution time is their distance in truncated milliseconds |
| Parser.RecordShape | audit_log_analysis.py:36-56 | a marker opens a fresh event: its timestamp is the next line, its operation type starts with the line after, and it has no `ExecutionTime` attribute; every other key holds the body's values in order, plain exactly when it occurs once; parsing resumes at the next marker |
| Parser.RecordsStep | audit_log_analysis.py:36-64 | a successful parse from a marker yields the finalised record of that marker followed by the parse from the next marker |
| Parser.HeaderKeys | audit_log_analysis.py:38-40 | when the record can be finalised, its `timestamp` is the line after the marker, untouched, and its operation type starts with the line after that |
| Parser.OneMarker | audit_log_analysis.py:36-41 | with clean header lines, a marker and its record body hold exactly one marker line |
| Parser.RecordsPerMarker | audit_log_analysis.py:36-41 | with clean headers, a successful parse from a marker yields one event per marker line |
| Parser.PreambleThenRecords | audit_log_analysis.py:30-64 | a successful parse of input that starts before its first marker yields the finalised record of those lines, followed by the events parsed from that marker on |
| Parser.EventCount | audit_log_analysis.py:36-64 | with clean headers, the number of events is the number of `AuditV3` lines, plus one when lines precede the first marker |
| Parser.PreambleWithoutTimestampFails | audit_log_analysis.py:58-60 | input that does not start with a marker, and whose leading lines give no `timestamp`, fails with the missing `timestamp` |
| Parser.PreambleWithoutReceivedFails | audit_log_analysis.py:58-61 | input that does not start with a marker, and whose leading lines give no `received`, fails; when their `timestamp` reads, it fails with the missing `received` |
| Parser.BlankInputFails | audit_log_analysis.py:32 | empty or blank text fails with the missing `timestamp`, because it strips to "" and splits into one empty line |
| Parser.FinalMarkerIsHeader | audit_log_analysis.py:39-40 | in a successful parse, a marker on the last line is the header line of a marker one or two lines earlier |
| Parser.MarkerNearEndIsHeader | audit_log_analysis.py:36-41 | in a successful parse from a marker, a marker on one of the last two lines is the header line of a marker one or two lines before it |
| Parser.MarkerNextToLastFails | audit_log_analysis.py:39-40 | a marker on the next-to-last line that does not stand in an earlier marker's header makes the parse fail |
| Parser.MarkerAtEndFails | audit_log_analysis.py:39-40 | a marker on the last line that does not stand in an earlier marker's header makes the parse fail |
| Parser.RecordFails | audit_log_analysis.py:61 | a record without `received` makes the parse from its marker fail |
| Parser.RestFails | audit_log_analysis.py:36-64 | a failure in a later record fails the parse from an earlier marker |
| Parser.MissingReceivedFrom | audit_log_analysis.py:61 | with clean headers, a record without `received` at or after a marker makes the parse from that marker fail |
| Parser.MissingReceivedFails | audit_log_analysis.py:61 | with clean headers, a record without `received` anywhere makes the whole parse fail |
| Tally.Count | audit_log_analysis.py:79-84 | the count is positive exactly for the elements present, and at most the length |
| Tally.DistinctMembers | audit_log_analysis.py:79-84 | the first-seen key list holds exactly the elements |
| Tally.CountedSeen | audit_log_analysis.py:79-81 | adding one to the counter of a key already present keeps the counters correct and the key order unchanged |
| Tally.CountedNew | audit_log_analysis.py:82-84 | a new key, set to 1, goes to the end of the key order and keeps the counters correct |
| Tally.CountedTotals | audit_log_analysis.py:75-87 | a finished counter dictionary has the elements as its keys, only positive counters, and counters that add up to the number of elements |
| Tally.SumCountsAll | audit_log_analysis.py:75-87 | the counts of distinct keys covering every element add up to the number of elements |
| Latency.TalliedSeen | audit_log_analysis.py:79-81 | one more event of a known type adds one to its count and its time to its sum, and leaves the key order as it was |
| Latency.TalliedNew | audit_log_analysis.py:82-84 | the first event of a type sets its count to 1 and its sum to its time, and appends the type to the key order |
| Latency.CountEvent | audit_log_analysis.py:76-87 | one more event keeps the counter dictionaries correct for the events so far, with the event appended |
| Latency.CountByType | audit_log_analysis.py:70-87 | the counting loop succeeds iff every event has a plain operation type, and otherwise reports the first that has none; on success it gives per-type counts and time sums in first-seen key order, and the total time |
| Latency.Averages | audit_log_analysis.py:89-92 | one average per counted type, each the truncated mean of that type's times |
| Latency.SummaryCorrect | audit_log_analysis.py:75-94 | the finished counters form a summary: the counts equal the occurrences and add up to the number of events, and the averages are the truncated means |
| Latency.SummaryCounts | audit_log_analysis.py:75-84 | finished counters are keyed by the types seen, each counts its type's events and is positive, and together they add up to the number of events |
| Latency.AverageExecutionTimes | audit_log_analysis.py:68-96 | succeeds iff every event has a plain operation type and there is at least one event; otherwise it reports the first untyped event, or the empty list; on success the counts add up to the number of events, each average is the truncated mean of its type's times, and the overall figure is the truncated mean of all times |
| Sorting.Insert | audit_log_analysis.py:100 | inserting adds exactly that element, as a multiset, and the result starts with it or with the list's first element |
| Sorting.InsertSorted | audit_log_analysis.py:100 | inserting into a non-increasing list keeps it non-increasing |
| Sorting.SortDescending | audit_log_analysis.py:100 | the result is a permutation of the input and non-increasing in the key |
| Sorting.SortStable | audit_log_analysis.py:100 | for every key value, the elements carrying it keep their input order |
| Sorting.SortSumKeys | audit_log_analysis.py:119 | sorting keeps the total of the keys |
| Sorting.SortNoDuplicates | audit_log_analysis.py:119 | sorting a list without repeats repeats nothing |
| Sorting.SortMembers | audit_log_analysis.py:119 | the sorted list holds exactly the input's elements |
| TopEvents.SliceEnd | audit_log_analysis.py:101 | where `[:n]` stops: `min(n, len)` for `n >= 0`, counted from the end and floored at 0 for negative `n` |
| TopEvents.HighestExecutionTimes | audit_log_analysis.py:98-103 | the result has the slice's length, is non-increasing in execution time, is a sub-multiset of the events, and holds all of them when `n` is at least their number |
| TopEvents.PrefixDominates | audit_log_analysis.py:100-101 | in a list sorted by descending time, every event before a cut is no faster than every event after it |
| TopEvents.TopIsTop | audit_log_analysis.py:100-101 | every event left out is no slower than every event returned |
| TopEvents.TopKeepsTies | audit_log_analysis.py:100-101 | the returned events of any one execution time are the first such events of the input, in input order |
| FilterAttrs.WordRun | audit_log_analysis.py:112 | the longest run of word characters from a position: all word characters, then the end or a non-word character |
| FilterAttrs.Name | audit_log_analysis.py:112 | the captured group is a non-empty word |
| FilterAttrs.MatchAtMeans | audit_log_analysis.py:112 | the greedy `\w+` loses nothing: the pattern matches at a position iff a parenthesis, a non-empty word and `=` stand there, and the captured name is that word |
| FilterAttrs.FindAll | audit_log_analysis.py:112 | `re.findall` scanning from a position and resuming after each match returns non-empty words |
| FilterAttrs.FilterAttributes | audit_log_analysis.py:112 | the names captured in a filter are non-empty words |
| FilterAttrs.FindAllEveryMatch | audit_log_analysis.py:112 | resuming after a match skips no match: the scan returns the name of the match at every position, left to right |
| FilterAttrs.CountInto | audit_log_analysis.py:113-117 | the inner loop leaves one counter per name, in first-seen order, counting its occurrences |
| FilterAttrs.AttributeCountsEntries | audit_log_analysis.py:113-119 | each summary entry pairs a captured name with its number of occurrences, and no name appears twice |
| FilterAttrs.AttributeCountsCover | audit_log_analysis.py:113-119 | every captured name has an entry |
| FilterAttrs.AttributeCountsTotal | audit_log_analysis.py:113-119 | the counts add up to the number of matches over all filters |
| FilterAttrs.AttributeCountsTies | audit_log_analysis.py:119 | entries with the same count keep first-seen order |
| FilterAttrs.ExtractFilterAttributes | audit_log_analysis.py:105-121 | succeeds iff no event has a repeated `filter`, and otherwise reports the first such event; on success it returns the names captured across all filters with their counts, stably sorted by descending count |
| Distribution.FirstAtLeast | audit_log_analysis.py:142-145 | the position of the first threshold not below the time: all earlier thresholds are below it |
| Distribution.Bucket | audit_log_analysis.py:142-145 | a time gets a bucket iff some threshold is not below it, and the bucket is a listed threshold not below it |
| Distribution.BucketLeast | audit_log_analysis.py:142-145 | with ascending thresholds, the bucket is the least threshold not below the time, and every smaller threshold is below the time |
| Distribution.BucketUnderLast | audit_log_analysis.py:142-145 | with ascending thresholds, a time gets a bucket iff it does not exceed the last threshold |
| Distribution.ThresholdsAscending | audit_log_analysis.py:6 | the report's thresholds are ascending |
| Distribution.BucketCountSnoc | audit_log_analysis.py:141-145 | one more event adds one to exactly its own type's counter for its bucket, and nothing anywhere when it has no bucket |
| Distribution.RowAbsent | audit_log_analysis.py:138-139 | a type without events has the all-zero row |
| Distribution.DistributedStep | audit_log_analysis.py:134-145 | an event's type gets an all-zero row if it is new, then one more in the event's bucket, and every other row stays the same |
| Distribution.RowSnoc | audit_log_analysis.py:141-145 | one more event bumps its own type's row at its bucket, and leaves every other row unchanged |
| Distribution.RowTotalSnoc | audit_log_analysis.py:141-145 | one more event adds one to its type's row total exactly when it falls under some threshold |
| Distribution.RowTotal | audit_log_analysis.py:134-146 | a row's counters add up to the number of that type's events that fall under some threshold |
| Distribution.PlacedUnderLast | audit_log_analysis.py:141-145 | with ascending thresholds, the events of a type placed under some threshold are exactly those whose time does not exceed the last threshold |
| Distribution.RowCoversUnderLast | audit_log_analysis.py:134-146 | with ascending thresholds, a row's counters add up to the number of events of its type whose time does not exceed the last threshold |
| Distribution.DistributionTotals | audit_log_analysis.py:134-146 | every row of a finished distribution adds up to the number of its type's events under some threshold |
| Distribution.CountUnderThreshold | audit_log_analysis.py:142-145 | the threshold loop adds one under the first threshold the time does not exceed, and nothing when it exceeds them all |
| Distribution.CountEvent | audit_log_analysis.py:138-145 | a new type gets an all-zero row and a new place in the key order; then the row of the event's type gets one more under its bucket |
| Distribution.ExecutionTimeDistribution | audit_log_analysis.py:130-146 | succeeds iff every event has a plain operation type, and otherwise reports the first that has none; on success every type seen has one row, in first-seen order, keyed by all thresholds and counting that type's events per bucket |
| Scenario.FilterLineSplits | audit_log_analysis.py:44-46 | `filter: (uid=bob)` splits into the key `filter` and the value `(uid=bob)` |
| Scenario.SearchAttributes | audit_log_analysis.py:36-56 | the worked record's body fills its header with the filter and the completion time |
| Scenario.SearchFinalized | audit_log_analysis.py:58-64 | timestamps 150 000 microseconds apart give an execution time of 150 ms |
| Scenario.SearchRecord | audit_log_analysis.py:58-64 | the worked record is finalised as the SEARCH event, and nothing follows it |
| Scenario.OneSearch | audit_log_analysis.py:24-66 | the worked record parses to one SEARCH event of 150 ms |
| Scenario.SearchFilterSummary | audit_log_analysis.py:105-121 | the worked event's filter summary is `[("uid", 1)]` |

## Left out

- File reading and writing (`audit_log_analysis.py:18-22`, `:26-27`) are not modelled. The model starts from the file's text.
- Printing and report formatting (`print_summary`, `print_execution_time_distribution`, `main`) are presentation only and not modelled. So is the module-level path setup (`:8-14`).
- Timestamp parsing is a parameter `parseTs: string -> Option<int>` giving microseconds. The `strptime` format grammar and time-zone arithmetic are library code and are not modelled.
- Events.Finalize: the execution time is `|Δµs| / 1000` in integers. The program computes `int(abs(total_seconds() * 1000))` in floating point, and the two already differ at ordinary distances of about one second. For a distance of 1 001 000 µs, `total_seconds()` is the double nearest 1.001, and multiplying it by 1000 gives 1000.9999999999999. So the program stores 1000 ms where the model stores 1001 ms, and with the report's thresholds that event falls under `1000` in the program but under `2000` in the model. Such one-millisecond shortfalls occur for a small fraction (well under one percent) of whole-millisecond distances above one second.
- Latency.Mean: the averages are integer divisions of non-negative totals. The program's `int(sum / count)` divides in floating point, which can differ by rounding for very large totals.
- Text.Strip: whitespace is the ASCII set only. Python's `str.strip()` also removes other Unicode whitespace.
- FilterAttrs.IsWordChar: `\w` is ASCII letters, digits and `_` only. Python's `\w` also matches other Unicode letters and digits.
- Parser.MissingReceivedFails: a record opened by a marker and lacking `received` is proved to fail the whole parse only for inputs where no marker stands in a header position (with such a marker, the record boundaries themselves shift). A preamble record lacking `received` is covered separately by `Parser.PreambleWithoutReceivedFails`.
- Parser.EventCount: the one-event-per-marker count is proved only for inputs where no marker stands in a header position. Otherwise the program consumes that marker as a header.
- Distribution.ExecutionTimeDistribution: the report's global threshold list is a parameter. The nested counter dictionary is a value that the loop reassigns. One event's update is the helper method `CountEvent`, and the threshold loop inside it is the helper method `CountUnderThreshold`. Both return the updated values instead of changing them in place.
- FilterAttrs.ExtractFilterAttributes: the loop over one filter's names is the helper method `CountInto`.
- Latency.CountByType: one event's update of the two counter dictionaries is the helper method `CountEvent`, which returns the new dictionaries instead of changing them in place.
- Exceptions are `Result` failures: a `KeyError` or `TypeError` on `operation_type`, a `TypeError` on a list-valued `filter`, a `ZeroDivisionError` on an empty event list, and an `IndexError` on a truncated record. The model does not distinguish a missing `operation_type` from a list-valued one.
- A client-address frequency reducer is not part of this model. The program has none.
