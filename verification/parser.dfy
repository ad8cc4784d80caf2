/** The event parser: a scan over the lines of the preprocessed text that
    opens a record at every `AuditV3` line, collects attribute lines into it,
    and finalises it when the next marker or the end of input is reached. */
module Parser {
  import opened Wrappers
  import opened Events
  import Text
  import Tally

  /** The first position at or after `from` that ends a record body: a marker
      line or the end of input. */
  function NextMarker(lines: seq<string>, from: nat): (q: nat)
    requires from <= |lines|
    ensures from <= q <= |lines|
    ensures q == |lines| || lines[q] == Marker
    ensures forall j :: from <= j < q ==> lines[j] != Marker
    decreases |lines| - from
  {
    if from == |lines| || lines[from] == Marker then from else NextMarker(lines, from + 1)
  }

  /** The attributes a marker at `p` starts its record with. */
  function Header(lines: seq<string>, p: nat): Attributes
    requires p + 2 < |lines|
  {
    map[TimestampKey := Single(lines[p + 1]), OperationKey := Single(lines[p + 2])]
  }

  function Prepend(events: seq<Event>, r: Result<seq<Event>, ParseError>): Result<seq<Event>, ParseError> {
    match r
    case Success(es) => Success(events + es)
    case Failure(e) => Failure(e)
  }

  /** The records from boundary `p` on. A marker takes the next two lines as
      timestamp and operation type, whatever they hold, and the body runs
      from three lines later up to the next marker. */
  function ParseRecords(lines: seq<string>, p: nat, parseTs: string -> Option<int>): Result<seq<Event>, ParseError>
    requires p == |lines| || (p < |lines| && lines[p] == Marker)
    decreases |lines| - p, 0
  {
    if p == |lines| then Success([])
    else if p + 2 >= |lines| then Failure(TruncatedRecord(p))
    else FinishRecord(lines, p + 3, Header(lines, p), parseTs)
  }

  /** The record whose remaining body starts at `i` with attributes `attrs`
      gathered so far, followed by all later records. */
  function FinishRecord(lines: seq<string>, i: nat, attrs: Attributes, parseTs: string -> Option<int>)
    : Result<seq<Event>, ParseError>
    requires i <= |lines|
    decreases |lines| - i, 1
  {
    var q := NextMarker(lines, i);
    var e :- Finalize(BuildAttrs(attrs, lines[i..q]), parseTs);
    var rest :- ParseRecords(lines, q, parseTs);
    Success([e] + rest)
  }

  /** The whole parse. Lines before the first marker are not skipped: they
      fill the initially empty record, which is finalised like any other. */
  function ParseLines(lines: seq<string>, parseTs: string -> Option<int>): Result<seq<Event>, ParseError> {
    if |lines| > 0 && lines[0] != Marker then FinishRecord(lines, 0, map[], parseTs)
    else ParseRecords(lines, 0, parseTs)
  }

  lemma PrependNothing(events: seq<Event>, r: Result<seq<Event>, ParseError>)
    ensures Prepend([], r) == r
    ensures Prepend(events, Success([])) == Success(events)
  {
    assert events + [] == events;
    if r.Success? {
      assert [] + r.value == r.value;
    }
  }

  lemma PrependOne(events: seq<Event>, e: Event, r: Result<seq<Event>, ParseError>)
    ensures Prepend(events, Prepend([e], r)) == Prepend(events + [e], r)
  {
    if r.Success? {
      assert events + ([e] + r.value) == events + [e] + r.value;
    }
  }

  /** What remains to be parsed at loop index `i` with record `attrs` open. */
  function Rest(lines: seq<string>, i: nat, attrs: Attributes, parseTs: string -> Option<int>)
    : Result<seq<Event>, ParseError>
    requires i <= |lines|
  {
    if i < |lines| && lines[i] != Marker then FinishRecord(lines, i, attrs, parseTs)
    else ParseRecords(lines, i, parseTs)
  }

  lemma FinishRecordStep(lines: seq<string>, i: nat, attrs: Attributes, parseTs: string -> Option<int>)
    requires i < |lines| && lines[i] != Marker
    ensures FinishRecord(lines, i, attrs, parseTs) == FinishRecord(lines, i + 1, AddAttribute(attrs, lines[i]), parseTs)
  {
    var q := NextMarker(lines, i);
    assert q == NextMarker(lines, i + 1);
    assert lines[i..q][1..] == lines[i + 1..q];
  }

  /** The scan over the lines, index by index. */
  method ParseLogLines(lines: seq<string>, parseTs: string -> Option<int>) returns (r: Result<seq<Event>, ParseError>)
    ensures r == ParseLines(lines, parseTs)
  {
    var events: seq<Event> := [];
    var current: Attributes := map[];
    var i := 0;
    PrependNothing(events, ParseLines(lines, parseTs));
    while i < |lines|
      invariant 0 <= i <= |lines|
      invariant ParseLines(lines, parseTs) == Prepend(events, Rest(lines, i, current, parseTs))
      decreases |lines| - i
    {
      ghost var before := Rest(lines, i, current, parseTs);
      if lines[i] == Marker {
        if i + 2 >= |lines| {
          return Failure(TruncatedRecord(i));
        }
        current := Header(lines, i);
        i := i + 3;
        assert before == FinishRecord(lines, i, current, parseTs);
      } else {
        FinishRecordStep(lines, i, current, parseTs);
        current := AddAttribute(current, lines[i]);
        i := i + 1;
        assert before == FinishRecord(lines, i, current, parseTs);
      }
      if i == |lines| || lines[i] == Marker {
        assert lines[i..i] == [];
        var e := Finalize(current, parseTs);
        if e.Failure? {
          return Failure(e.error);
        }
        assert before == Prepend([e.value], ParseRecords(lines, i, parseTs));
        PrependOne(events, e.value, ParseRecords(lines, i, parseTs));
        events := events + [e.value];
      }
    }
    PrependNothing(events, Success([]));
    return Success(events);
  }

  /** The text-level parse: strip, split into lines, scan. */
  method ParseLog(content: string, parseTs: string -> Option<int>) returns (r: Result<seq<Event>, ParseError>)
    ensures r == ParseLines(Text.Split(Text.Strip(content), '\n'), parseTs)
  {
    var lines := Text.Split(Text.Strip(content), '\n');
    r := ParseLogLines(lines, parseTs);
  }

  // ---------------------------------------------------------------- properties

  /** Every finished event carries both timestamps, parsed, and its execution
      time is their distance in truncated milliseconds (so never negative). */
  lemma {:induction false} RecordsWellTimed(lines: seq<string>, p: nat, parseTs: string -> Option<int>)
    requires p == |lines| || (p < |lines| && lines[p] == Marker)
    requires ParseRecords(lines, p, parseTs).Success?
    ensures forall e :: e in ParseRecords(lines, p, parseTs).value ==> WellTimed(e, parseTs)
    decreases |lines| - p
  {
    if p < |lines| {
      var q := NextMarker(lines, p + 3);
      RecordsWellTimed(lines, q, parseTs);
    }
  }

  lemma AllEventsWellTimed(lines: seq<string>, parseTs: string -> Option<int>)
    requires ParseLines(lines, parseTs).Success?
    ensures forall e :: e in ParseLines(lines, parseTs).value ==> WellTimed(e, parseTs)
  {
    if |lines| > 0 && lines[0] != Marker {
      RecordsWellTimed(lines, NextMarker(lines, 0), parseTs);
    } else {
      RecordsWellTimed(lines, 0, parseTs);
    }
  }

  /** A marker opens a fresh event whose timestamp is exactly the next line
      and whose operation type starts with the line after; its other keys
      hold the body's values in encounter order, a plain string exactly when
      the key occurs once; the later events come from the next marker on. */
  lemma RecordShape(lines: seq<string>, p: nat, parseTs: string -> Option<int>)
    requires p < |lines| && lines[p] == Marker
    requires ParseRecords(lines, p, parseTs).Success?
    ensures p + 2 < |lines|
    ensures var es := ParseRecords(lines, p, parseTs).value;
            var q := NextMarker(lines, p + 3);
            var body := lines[p + 3..q];
      && |es| > 0
      && TimestampKey in es[0].attrs && es[0].attrs[TimestampKey] == Single(lines[p + 1])
      && OperationKey in es[0].attrs && |Values(es[0].attrs[OperationKey])| > 0
      && Values(es[0].attrs[OperationKey])[0] == lines[p + 2]
      && ExecutionTimeKey !in es[0].attrs
      && (forall k :: k != TimestampKey && k != OperationKey && k != ExecutionTimeKey ==>
            && (k in es[0].attrs <==> KeyValues(body, k) != [])
            && (k in es[0].attrs ==> Values(es[0].attrs[k]) == KeyValues(body, k)
                                     && (es[0].attrs[k].Single? <==> |KeyValues(body, k)| == 1)))
      && ParseRecords(lines, q, parseTs).Success?
      && es[1..] == ParseRecords(lines, q, parseTs).value
  {
    RecordsStep(lines, p, parseTs);
    var q := NextMarker(lines, p + 3);
    var body := lines[p + 3..q];
    var h := Header(lines, p);
    var attrs := BuildAttrs(h, body);
    var es := ParseRecords(lines, p, parseTs).value;
    assert es[0].attrs == attrs - {ExecutionTimeKey};
    HeaderKeys(lines, p, body, parseTs);
    forall k | k != TimestampKey && k != OperationKey && k != ExecutionTimeKey
      ensures && (k in es[0].attrs <==> KeyValues(body, k) != [])
              && (k in es[0].attrs ==> Values(es[0].attrs[k]) == KeyValues(body, k)
                                       && (es[0].attrs[k].Single? <==> |KeyValues(body, k)| == 1))
    {
      Accumulate(h, body, k);
    }
  }

  /** The header's two keys survive a body that lets the record be
      finalised: the timestamp untouched, the operation type with the
      header's value first. */
  lemma HeaderKeys(lines: seq<string>, p: nat, body: seq<string>, parseTs: string -> Option<int>)
    requires p + 2 < |lines|
    requires TimeOf(BuildAttrs(Header(lines, p), body), TimestampKey, parseTs).Success?
    ensures var attrs := BuildAttrs(Header(lines, p), body);
      && TimestampKey in attrs && attrs[TimestampKey] == Single(lines[p + 1])
      && OperationKey in attrs && |Values(attrs[OperationKey])| > 0
      && Values(attrs[OperationKey])[0] == lines[p + 2]
  {
    var h := Header(lines, p);
    var attrs := BuildAttrs(h, body);
    assert TimestampKey != OperationKey;
    assert h[TimestampKey] == Single(lines[p + 1]) && h[OperationKey] == Single(lines[p + 2]);
    Accumulate(h, body, TimestampKey);
    Accumulate(h, body, OperationKey);
    assert KeyValues(body, TimestampKey) == [];
    assert Values(attrs[TimestampKey]) == [lines[p + 1]];
  }

  /** No marker appears where a record expects its timestamp or operation
      type, and every marker has those two lines. */
  predicate HeadersClean(lines: seq<string>) {
    forall j :: 0 <= j < |lines| ==> HeaderCleanAt(lines, j)
  }

  predicate HeaderCleanAt(lines: seq<string>, j: nat)
    requires j < |lines|
  {
    lines[j] == Marker ==> j + 2 < |lines| && lines[j + 1] != Marker && lines[j + 2] != Marker
  }

  lemma {:induction false} RecordsPerMarker(lines: seq<string>, p: nat, parseTs: string -> Option<int>)
    requires p == |lines| || (p < |lines| && lines[p] == Marker)
    requires HeadersClean(lines)
    requires ParseRecords(lines, p, parseTs).Success?
    ensures |ParseRecords(lines, p, parseTs).value| == Tally.Count(lines[p..], Marker)
    decreases |lines| - p
  {
    if p < |lines| {
      RecordsStep(lines, p, parseTs);
      assert HeaderCleanAt(lines, p);
      OneMarker(lines, p);
      RecordsPerMarker(lines, NextMarker(lines, p + 3), parseTs);
    }
  }

  /** A successful parse from a marker yields one event and then the parse
      from the next marker. */
  lemma RecordsStep(lines: seq<string>, p: nat, parseTs: string -> Option<int>)
    requires p < |lines| && lines[p] == Marker
    requires ParseRecords(lines, p, parseTs).Success?
    ensures p + 2 < |lines|
    ensures var q := NextMarker(lines, p + 3);
            var e := Finalize(BuildAttrs(Header(lines, p), lines[p + 3..q]), parseTs);
      && e.Success?
      && ParseRecords(lines, q, parseTs).Success?
      && ParseRecords(lines, p, parseTs).value == [e.value] + ParseRecords(lines, q, parseTs).value
  {
    var q := NextMarker(lines, p + 3);
    var e := Finalize(BuildAttrs(Header(lines, p), lines[p + 3..q]), parseTs);
    var rest := ParseRecords(lines, q, parseTs);
    assert ParseRecords(lines, p, parseTs) == FinishRecord(lines, p + 3, Header(lines, p), parseTs);
    assert e.Success? && rest.Success?;
    assert ParseRecords(lines, p, parseTs).value == [e.value] + rest.value;
  }

  /** A marker followed by lines that are not markers adds one to the count. */
  lemma OneMarker(lines: seq<string>, p: nat)
    requires p + 2 < |lines| && lines[p] == Marker && HeaderCleanAt(lines, p)
    ensures Tally.Count(lines[p..], Marker) == 1 + Tally.Count(lines[NextMarker(lines, p + 3)..], Marker)
  {
    var q := NextMarker(lines, p + 3);
    assert lines[p..] == [lines[p]] + lines[p + 1..q] + lines[q..];
    Tally.CountAppend([lines[p]] + lines[p + 1..q], lines[q..], Marker);
    Tally.CountAppend([lines[p]], lines[p + 1..q], Marker);
    assert Marker !in lines[p + 1..q];
  }

  /** A successful parse that starts before the first marker yields the
      preamble's event followed by the records from that marker on. */
  lemma PreambleThenRecords(lines: seq<string>, parseTs: string -> Option<int>)
    requires |lines| > 0 && lines[0] != Marker
    requires ParseLines(lines, parseTs).Success?
    ensures var q := NextMarker(lines, 0);
            var e := Finalize(BuildAttrs(map[], lines[..q]), parseTs);
      && e.Success?
      && ParseRecords(lines, q, parseTs).Success?
      && ParseLines(lines, parseTs).value == [e.value] + ParseRecords(lines, q, parseTs).value
  {
    var q := NextMarker(lines, 0);
    var r := FinishRecord(lines, 0, map[], parseTs);
    assert ParseLines(lines, parseTs) == r;
    assert lines[0..q] == lines[..q];
    var e := Finalize(BuildAttrs(map[], lines[..q]), parseTs);
    var rest := ParseRecords(lines, q, parseTs);
    assert e.Success? && rest.Success? && r.value == [e.value] + rest.value;
  }

  lemma MarkersFrom(lines: seq<string>, q: nat)
    requires q <= |lines|
    requires forall j :: 0 <= j < q ==> lines[j] != Marker
    ensures Tally.Count(lines, Marker) == Tally.Count(lines[q..], Marker)
  {
    assert lines == lines[..q] + lines[q..];
    Tally.CountAppend(lines[..q], lines[q..], Marker);
    assert Marker !in lines[..q];
  }

  /** With clean headers, a successful parse yields one event per `AuditV3`
      line, plus one for the lines before the first marker if there are any. */
  lemma EventCount(lines: seq<string>, parseTs: string -> Option<int>)
    requires HeadersClean(lines)
    requires ParseLines(lines, parseTs).Success?
    ensures |ParseLines(lines, parseTs).value|
            == Tally.Count(lines, Marker) + (if |lines| > 0 && lines[0] != Marker then 1 else 0)
  {
    if |lines| > 0 && lines[0] != Marker {
      var q := NextMarker(lines, 0);
      PreambleThenRecords(lines, parseTs);
      RecordsPerMarker(lines, q, parseTs);
      MarkersFrom(lines, q);
    } else {
      RecordsPerMarker(lines, 0, parseTs);
      assert lines[0..] == lines;
    }
  }

  /** Lines before the first marker go into the initially empty record; if
      none of them supplies a `timestamp`, finalising it fails. */
  lemma PreambleWithoutTimestampFails(lines: seq<string>, parseTs: string -> Option<int>)
    requires |lines| > 0 && lines[0] != Marker
    requires KeyValues(lines[..NextMarker(lines, 0)], TimestampKey) == []
    ensures ParseLines(lines, parseTs) == Failure(MissingKey(TimestampKey))
  {
    Accumulate(map[], lines[..NextMarker(lines, 0)], TimestampKey);
    assert lines[0..NextMarker(lines, 0)] == lines[..NextMarker(lines, 0)];
  }

  /** Empty or blank input fails: it strips to "", which splits into [""]. */
  lemma BlankInputFails(content: string, parseTs: string -> Option<int>)
    requires Text.Strip(content) == ""
    ensures ParseLines(Text.Split(Text.Strip(content), '\n'), parseTs) == Failure(MissingKey(TimestampKey))
  {
    var lines := Text.Split("", '\n');
    assert lines == [""];
    assert NextMarker(lines, 0) == 1;
    assert lines[..1] == [""];
    assert SplitAttribute("").None?;
    assert KeyValues([""], TimestampKey) == [];
    PreambleWithoutTimestampFails(lines, parseTs);
  }

  lemma {:induction false} FinalMarkerIsHeader(lines: seq<string>, p: nat, parseTs: string -> Option<int>)
    requires p == |lines| || (p < |lines| && lines[p] == Marker)
    requires ParseRecords(lines, p, parseTs).Success?
    requires p < |lines| && lines[|lines| - 1] == Marker
    ensures (|lines| >= 2 && lines[|lines| - 2] == Marker) || (|lines| >= 3 && lines[|lines| - 3] == Marker)
    decreases |lines| - p
  {
    var n := |lines|;
    if p + 3 < n {
      var q := NextMarker(lines, p + 3);
      FinalMarkerIsHeader(lines, q, parseTs);
    }
  }

  /** A marker on the last line that no marker two or one lines before it
      claims as a header opens a record without its two header lines: the
      index error fails the parse. */
  lemma MarkerAtEndFails(lines: seq<string>, parseTs: string -> Option<int>)
    requires |lines| > 0 && lines[|lines| - 1] == Marker
    requires |lines| < 2 || lines[|lines| - 2] != Marker
    requires |lines| < 3 || lines[|lines| - 3] != Marker
    ensures ParseLines(lines, parseTs).Failure?
  {
    if ParseLines(lines, parseTs).Success? {
      if lines[0] != Marker {
        FinalMarkerIsHeader(lines, NextMarker(lines, 0), parseTs);
      } else {
        FinalMarkerIsHeader(lines, 0, parseTs);
      }
    }
  }

  /** In a successful parse from a marker, a marker on one of the last two
      lines is the header line of a marker one or two lines before it: a
      record it opened would lack its two header lines. */
  lemma {:induction false} MarkerNearEndIsHeader(lines: seq<string>, p: nat, m: nat, parseTs: string -> Option<int>)
    requires p == |lines| || (p < |lines| && lines[p] == Marker)
    requires ParseRecords(lines, p, parseTs).Success?
    requires p <= m < |lines| && m + 2 >= |lines| && lines[m] == Marker
    ensures (m >= 1 && lines[m - 1] == Marker) || (m >= 2 && lines[m - 2] == Marker)
    decreases |lines| - p
  {
    if p + 3 <= m {
      RecordsStep(lines, p, parseTs);
      var q := NextMarker(lines, p + 3);
      MarkerNearEndIsHeader(lines, q, m, parseTs);
    }
  }

  /** A marker on the next-to-last line that no marker two or one lines
      before it claims as a header opens a record whose operation-type line
      is missing: the index error fails the parse. */
  lemma MarkerNextToLastFails(lines: seq<string>, parseTs: string -> Option<int>)
    requires |lines| >= 2 && lines[|lines| - 2] == Marker
    requires |lines| < 3 || lines[|lines| - 3] != Marker
    requires |lines| < 4 || lines[|lines| - 4] != Marker
    ensures ParseLines(lines, parseTs).Failure?
  {
    var m := |lines| - 2;
    if ParseLines(lines, parseTs).Success? {
      if lines[0] != Marker {
        PreambleThenRecords(lines, parseTs);
        MarkerNearEndIsHeader(lines, NextMarker(lines, 0), m, parseTs);
      } else {
        MarkerNearEndIsHeader(lines, 0, m, parseTs);
      }
    }
  }

  /** Input that does not start with a marker, and whose leading lines give
      no `received`, fails: the lines before the first marker form a record
      that cannot be finalised. When that record's `timestamp` reads, the
      error is the missing `received`. */
  lemma PreambleWithoutReceivedFails(lines: seq<string>, parseTs: string -> Option<int>)
    requires |lines| > 0 && lines[0] != Marker
    requires KeyValues(lines[..NextMarker(lines, 0)], ReceivedKey) == []
    ensures ParseLines(lines, parseTs).Failure?
    ensures var attrs := BuildAttrs(map[], lines[..NextMarker(lines, 0)]);
      TimeOf(attrs, TimestampKey, parseTs).Success? ==> ParseLines(lines, parseTs).error == MissingKey(ReceivedKey)
  {
    var q := NextMarker(lines, 0);
    var attrs := BuildAttrs(map[], lines[..q]);
    Accumulate(map[], lines[..q], ReceivedKey);
    assert ReceivedKey !in attrs;
    assert lines[0..q] == lines[..q];
    assert ParseLines(lines, parseTs) == FinishRecord(lines, 0, map[], parseTs);
    assert Finalize(attrs, parseTs).Failure?;
  }

  /** The attributes of the record the marker at `m` opens. */
  function RecordAt(lines: seq<string>, m: nat): Attributes
    requires m + 2 < |lines|
  {
    BuildAttrs(Header(lines, m), lines[m + 3..NextMarker(lines, m + 3)])
  }

  lemma {:induction false} MissingReceivedFrom(lines: seq<string>, p: nat, m: nat, parseTs: string -> Option<int>)
    requires p == |lines| || (p < |lines| && lines[p] == Marker)
    requires HeadersClean(lines)
    requires p <= m && m + 2 < |lines| && lines[m] == Marker
    requires ReceivedKey !in RecordAt(lines, m)
    ensures ParseRecords(lines, p, parseTs).Failure?
    decreases |lines| - p
  {
    assert HeaderCleanAt(lines, p);
    if p == m {
      RecordFails(lines, p, parseTs);
    } else {
      NextMarkerBefore(lines, p, m);
      MissingReceivedFrom(lines, NextMarker(lines, p + 3), m, parseTs);
      RestFails(lines, p, parseTs);
    }
  }

  /** A record without `received` cannot be finalised. */
  lemma RecordFails(lines: seq<string>, p: nat, parseTs: string -> Option<int>)
    requires p + 2 < |lines| && lines[p] == Marker
    requires ReceivedKey !in RecordAt(lines, p)
    ensures ParseRecords(lines, p, parseTs).Failure?
  {
    assert ParseRecords(lines, p, parseTs) == FinishRecord(lines, p + 3, Header(lines, p), parseTs);
    assert Finalize(RecordAt(lines, p), parseTs).Failure?;
  }

  /** A failure in a later record fails the parse from an earlier marker. */
  lemma RestFails(lines: seq<string>, p: nat, parseTs: string -> Option<int>)
    requires p + 2 < |lines| && lines[p] == Marker
    requires ParseRecords(lines, NextMarker(lines, p + 3), parseTs).Failure?
    ensures ParseRecords(lines, p, parseTs).Failure?
  {
    assert ParseRecords(lines, p, parseTs) == FinishRecord(lines, p + 3, Header(lines, p), parseTs);
  }

  /** A later marker is not inside the record at `p`, its header lines being clean. */
  lemma NextMarkerBefore(lines: seq<string>, p: nat, m: nat)
    requires p < m < |lines| && lines[p] == Marker && lines[m] == Marker
    requires HeaderCleanAt(lines, p)
    ensures p + 3 <= m && NextMarker(lines, p + 3) <= m
  {
  }

  /** With clean headers, a record without a `received` line makes the
      whole parse fail, wherever it stands. */
  lemma MissingReceivedFails(lines: seq<string>, m: nat, parseTs: string -> Option<int>)
    requires HeadersClean(lines)
    requires m + 2 < |lines| && lines[m] == Marker
    requires ReceivedKey !in RecordAt(lines, m)
    ensures ParseLines(lines, parseTs).Failure?
  {
    if lines[0] != Marker {
      var q := NextMarker(lines, 0);
      assert ParseLines(lines, parseTs) == FinishRecord(lines, 0, map[], parseTs);
      MissingReceivedFrom(lines, q, m, parseTs);
    } else {
      MissingReceivedFrom(lines, 0, m, parseTs);
    }
  }
}
