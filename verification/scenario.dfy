/** A worked record: one SEARCH request with a filter, 150 ms between the
    request and its completion. */
module Scenario {
  import opened Wrappers
  import opened Events
  import Parser
  import FilterAttrs
  import Tally

  const Sent: string := "2024-01-01-10:00:00.000000+00:00"
  const Done: string := "2024-01-01-10:00:00.150000+00:00"
  const FilterLine: string := "filter: (uid=bob)"
  const ReceivedLine: string := "received: " + Done

  function Lines(): seq<string> {
    [Marker, Sent, "SEARCH", FilterLine, ReceivedLine]
  }

  lemma FilterLineSplits()
    ensures SplitAttribute(FilterLine) == Some((FilterKey, "(uid=bob)"))
  {
    var l := FilterLine;
    assert SeparatorAt(l, 6);
    assert !SeparatorAt(l, 0) && !SeparatorAt(l, 1) && !SeparatorAt(l, 2)
        && !SeparatorAt(l, 3) && !SeparatorAt(l, 4) && !SeparatorAt(l, 5);
    assert FindSeparator(l, 0) == Some(6);
    assert l[..6] == FilterKey && l[8..] == "(uid=bob)";
  }

  lemma ReceivedLineSplits()
    ensures SplitAttribute(ReceivedLine) == Some((ReceivedKey, Done))
  {
    var l := ReceivedLine;
    assert SeparatorAt(l, 8);
    assert !SeparatorAt(l, 0) && !SeparatorAt(l, 1) && !SeparatorAt(l, 2) && !SeparatorAt(l, 3)
        && !SeparatorAt(l, 4) && !SeparatorAt(l, 5) && !SeparatorAt(l, 6) && !SeparatorAt(l, 7);
    assert FindSeparator(l, 0) == Some(8);
    assert l[..8] == ReceivedKey && l[10..] == Done;
  }

  lemma FilterNamesOfScenario()
    ensures FilterAttrs.FilterAttributes("(uid=bob)") == ["uid"]
  {
    var s := "(uid=bob)";
    assert FilterAttrs.WordRun(s, 1) == 3;
    assert FilterAttrs.MatchAt(s, 0);
    assert FilterAttrs.Name(s, 0) == "uid";
    assert FilterAttrs.FindAll(s, 5) == [] by {
      assert !FilterAttrs.MatchAt(s, 5) && !FilterAttrs.MatchAt(s, 6) && !FilterAttrs.MatchAt(s, 7) && !FilterAttrs.MatchAt(s, 8);
    }
  }

  /** The event the record becomes. */
  function SearchEvent(): Event {
    Event(map[TimestampKey := Single(Sent), OperationKey := Single("SEARCH"),
              FilterKey := Single("(uid=bob)"), ReceivedKey := Single(Done)], 150)
  }

  /** The record's body is its last two lines. */
  lemma SearchBody()
    ensures Parser.NextMarker(Lines(), 3) == 5
    ensures Lines()[3..5] == [FilterLine, ReceivedLine]
  {
    var lines := Lines();
    assert lines[3] != Marker && lines[4] != Marker;
  }

  /** The body lines fill the header's record with the filter and the
      completion time. */
  lemma SearchAttributes()
    ensures Parser.NextMarker(Lines(), 3) == 5
    ensures BuildAttrs(Parser.Header(Lines(), 0), Lines()[3..5]) == SearchEvent().attrs
  {
    SearchBody();
    FilterLineSplits();
    ReceivedLineSplits();
    var header := Parser.Header(Lines(), 0);
    var a1 := AddAttribute(header, FilterLine);
    assert FilterKey !in header;
    assert a1 == header[FilterKey := Single("(uid=bob)")];
    var attrs := AddAttribute(a1, ReceivedLine);
    assert ReceivedKey !in a1;
    assert attrs == a1[ReceivedKey := Single(Done)];
    assert BuildAttrs(header, [FilterLine, ReceivedLine]) == BuildAttrs(a1, [ReceivedLine]) == BuildAttrs(attrs, []) == attrs;
  }

  /** Finalising it yields 150 ms. */
  lemma SearchFinalized(parseTs: string -> Option<int>, t0: int)
    requires parseTs(Sent) == Some(t0) && parseTs(Done) == Some(t0 + 150000)
    ensures Finalize(SearchEvent().attrs, parseTs) == Success(SearchEvent())
  {
    var attrs := SearchEvent().attrs;
    assert ExecutionTimeKey !in attrs;
    assert attrs - {ExecutionTimeKey} == attrs;
    assert TimeOf(attrs, TimestampKey, parseTs) == Success(t0);
    assert TimeOf(attrs, ReceivedKey, parseTs) == Success(t0 + 150000);
  }

  /** The record closes as that event, and nothing follows it. */
  lemma SearchRecord(parseTs: string -> Option<int>, t0: int)
    requires parseTs(Sent) == Some(t0) && parseTs(Done) == Some(t0 + 150000)
    ensures Parser.FinishRecord(Lines(), 3, Parser.Header(Lines(), 0), parseTs) == Success([SearchEvent()])
  {
    var e := SearchEvent();
    SearchAttributes();
    SearchFinalized(parseTs, t0);
    assert Parser.ParseRecords(Lines(), 5, parseTs) == Success([]);
    assert [e] + [] == [e];
  }

  /** The record parses to one SEARCH event of 150 ms. */
  lemma OneSearch(parseTs: string -> Option<int>, t0: int)
    requires parseTs(Sent) == Some(t0) && parseTs(Done) == Some(t0 + 150000)
    ensures Parser.ParseLines(Lines(), parseTs) == Success([SearchEvent()])
    ensures OpType(SearchEvent()) == Some("SEARCH") && SearchEvent().executionTime == 150
  {
    var lines := Lines();
    SearchRecord(parseTs, t0);
    assert |lines| == 5 && lines[0] == Marker;
    assert Parser.ParseLines(lines, parseTs) == Parser.ParseRecords(lines, 0, parseTs);
  }

  /** Its filter names one attribute, `uid`. */
  lemma SearchFilterNames()
    ensures FilterAttrs.FilterNames([SearchEvent()]) == ["uid"]
  {
    var e := SearchEvent();
    FilterNamesOfScenario();
    assert FilterAttrs.FilterOf(e) == ["uid"];
    assert [e][..0] == [];
  }

  /** The summary lists `uid` once. */
  lemma SearchFilterSummary()
    ensures FilterAttrs.AttributeCounts(FilterAttrs.FilterNames([SearchEvent()])) == [("uid", 1)]
  {
    SearchFilterNames();
    assert Tally.Distinct(["uid"]) == ["uid"] by {
      assert ["uid"][..0] == [];
    }
    assert Tally.Count(["uid"], "uid") == 1;
    assert FilterAttrs.Pairs(["uid"], ["uid"]) == [("uid", 1)];
  }
}
