/** The latency summary: per-operation-type counts and truncated mean
    execution times, and the truncated mean over all events. */
module Latency {
  import opened Wrappers
  import opened Events
  import Tally

  /** The three results of the reducer; `types` is the key order the
      dictionaries have (first occurrence). */
  datatype Summary = Summary(types: seq<string>, averages: map<string, int>, counts: map<string, nat>, overall: int)

  /** Total execution time of the events of type `k`. */
  function TypeTime(events: seq<Event>, k: string): nat {
    if events == [] then 0
    else
      var e := events[|events| - 1];
      TypeTime(events[..|events| - 1], k) + (if OpType(e) == Some(k) then e.executionTime else 0)
  }

  function TotalTime(events: seq<Event>): nat {
    if events == [] then 0 else TotalTime(events[..|events| - 1]) + events[|events| - 1].executionTime
  }

  /** The sum of `m` over the keys `keys`. */
  function SumOver(keys: seq<string>, m: map<string, nat>): nat
    requires forall i :: 0 <= i < |keys| ==> keys[i] in m
  {
    if keys == [] then 0 else m[keys[0]] + SumOver(keys[1..], m)
  }

  lemma {:induction false} SumOverCounts(keys: seq<string>, m: map<string, nat>, names: seq<string>)
    requires forall i :: 0 <= i < |keys| ==> keys[i] in m && m[keys[i]] == Tally.Count(names, keys[i])
    ensures SumOver(keys, m) == Tally.SumCounts(keys, names)
  {
    if keys != [] {
      SumOverCounts(keys[1..], m, names);
    }
  }

  /** Every sum in `sums` is the total execution time of the events of its type. */
  ghost predicate SumsMatch(pre: seq<Event>, sums: map<string, nat>) {
    forall k :: k in sums ==> sums[k] == TypeTime(pre, k)
  }

  /** The counter dictionaries after the events `pre`. */
  ghost predicate Tallied(pre: seq<Event>, types: seq<string>, counts: map<string, nat>, sums: map<string, nat>) {
    && AllTyped(pre)
    && Tally.Counted(OpTypes(pre), types, counts)
    && Tally.KeysAre(sums, types)
    && SumsMatch(pre, sums)
  }

  lemma TypeTimeSnoc(pre: seq<Event>, e: Event)
    ensures forall k :: TypeTime(pre + [e], k) == TypeTime(pre, k) + (if OpType(e) == Some(k) then e.executionTime else 0)
  {
    assert (pre + [e])[..|pre|] == pre;
  }

  lemma TotalSnoc(pre: seq<Event>, e: Event)
    ensures TotalTime(pre + [e]) == TotalTime(pre) + e.executionTime
  {
    assert (pre + [e])[..|pre|] == pre;
  }

  lemma TalliedEmpty(pre: seq<Event>)
    requires pre == []
    ensures Tallied(pre, [], map[], map[])
  {
    Tally.CountedEmpty<string>();
    assert OpTypes(pre) == [];
  }

  lemma {:induction false} TypeTimeAbsent(pre: seq<Event>, k: string)
    requires AllTyped(pre) && k !in OpTypes(pre)
    ensures TypeTime(pre, k) == 0
  {
    if pre != [] {
      var init := pre[..|pre| - 1];
      assert AllTyped(init) by {
        forall i | 0 <= i < |init| ensures OpType(init[i]).Some? { assert init[i] == pre[i]; }
      }
      assert OpTypes(pre) == OpTypes(init) + [OpType(pre[|pre| - 1]).value];
      TypeTimeAbsent(init, k);
    }
  }

  lemma SumsStep(pre: seq<Event>, e: Event, sums: map<string, nat>, sums': map<string, nat>)
    requires AllTyped(pre) && OpType(e).Some?
    requires SumsMatch(pre, sums)
    requires var k := OpType(e).value;
      sums' == sums[k := (if k in sums then sums[k] else 0) + e.executionTime]
    requires OpType(e).value !in sums ==> TypeTime(pre, OpType(e).value) == 0
    ensures SumsMatch(pre + [e], sums')
  {
    TypeTimeSnoc(pre, e);
  }

  /** One more event of a type already counted. */
  lemma TalliedSeen(pre: seq<Event>, e: Event, types: seq<string>, counts: map<string, nat>, sums: map<string, nat>)
    requires Tallied(pre, types, counts, sums) && OpType(e).Some? && OpType(e).value in counts
    ensures var k := OpType(e).value;
      Tallied(pre + [e], types, counts[k := counts[k] + 1], sums[k := sums[k] + e.executionTime])
  {
    var k := OpType(e).value;
    SnocTypes(pre, e);
    Tally.CountedSeen(OpTypes(pre), k, types, counts);
    SumsStep(pre, e, sums, sums[k := sums[k] + e.executionTime]);
  }

  /** The first event of a new type. */
  lemma TalliedNew(pre: seq<Event>, e: Event, types: seq<string>, counts: map<string, nat>, sums: map<string, nat>)
    requires Tallied(pre, types, counts, sums) && OpType(e).Some? && OpType(e).value !in counts
    ensures var k := OpType(e).value;
      Tallied(pre + [e], types + [k], counts[k := 1], sums[k := e.executionTime])
  {
    var k := OpType(e).value;
    SnocTypes(pre, e);
    Tally.CountedNew(OpTypes(pre), k, types, counts);
    Tally.DistinctMembers(OpTypes(pre), k);
    TypeTimeAbsent(pre, k);
    SumsStep(pre, e, sums, sums[k := 0 + e.executionTime]);
  }

  /** The per-type means, truncated, in the key order of the counters. */
  method Averages(types: seq<string>, counts: map<string, nat>, sums: map<string, nat>) returns (averages: map<string, int>)
    requires forall k :: k in types ==> k in counts && k in sums && counts[k] > 0
    ensures forall k :: k in averages <==> k in types
    ensures forall k :: k in averages ==> averages[k] == Mean(sums[k], counts[k])
  {
    averages := map[];
    for j := 0 to |types|
      invariant forall k :: k in averages <==> k in types[..j]
      invariant forall k :: k in averages ==> k in types && averages[k] == Mean(sums[k], counts[k])
    {
      averages := averages[types[j] := Mean(sums[types[j]], counts[types[j]])];
    }
    assert types[..|types|] == types;
  }

  /** `int(total / n)` for a non-negative total: the mean truncated to an integer. */
  function Mean(total: nat, n: nat): nat
    requires n > 0
  {
    total / n
  }

  /** `s` is the summary of the non-empty, fully typed `events`: one counter
      per operation type in first-seen order, each the number of events of
      that type, the counters adding up to the number of events; each
      average the truncated mean of that type's execution times; and the
      overall average the truncated mean of all of them. */
  ghost predicate Summarises(events: seq<Event>, s: Summary)
    requires AllTyped(events) && |events| > 0
  {
    var names := OpTypes(events);
    && s.types == Tally.Distinct(names)
    && (forall k :: k in s.counts <==> k in names)
    && (forall k :: k in s.averages <==> k in names)
    && (forall k :: k in s.types ==> k in s.counts)
    && (forall k :: k in s.counts ==> s.counts[k] == Tally.Count(names, k)
                                      && s.averages[k] == Mean(TypeTime(events, k), s.counts[k]))
    && SumOver(s.types, s.counts) == |events|
    && s.overall == Mean(TotalTime(events), |events|)
  }

  lemma SummaryCorrect(events: seq<Event>, types: seq<string>, counts: map<string, nat>, sums: map<string, nat>,
                       averages: map<string, int>, total: nat)
    requires |events| > 0 && Tallied(events, types, counts, sums) && total == TotalTime(events)
    requires forall k :: k in averages <==> k in types
    requires forall k :: k in types ==> k in counts && k in sums && counts[k] > 0
    requires forall k :: k in averages ==> averages[k] == Mean(sums[k], counts[k])
    ensures Summarises(events, Summary(types, averages, counts, Mean(total, |events|)))
  {
    var names := OpTypes(events);
    SummaryCounts(names, types, counts);
    SummaryAverages(events, counts, sums, averages);
  }

  /** The counters: keyed by the types seen, each the number of events of its
      type, adding up to the number of events. */
  lemma SummaryCounts(names: seq<string>, types: seq<string>, counts: map<string, nat>)
    requires Tally.Counted(names, types, counts)
    ensures forall k :: k in counts <==> k in names
    ensures forall k :: k in types ==> k in counts
    ensures forall k :: k in counts ==> counts[k] == Tally.Count(names, k) && counts[k] > 0
    ensures SumOver(types, counts) == |names|
  {
    Tally.CountedTotals(names, types, counts);
    SumOverCounts(types, counts, names);
  }

  /** The averages: each the truncated mean of its type's execution times. */
  lemma SummaryAverages(events: seq<Event>, counts: map<string, nat>, sums: map<string, nat>, averages: map<string, int>)
    requires SumsMatch(events, sums)
    requires forall k :: k in averages <==> k in counts
    requires forall k :: k in counts ==> k in sums && counts[k] > 0
    requires forall k :: k in averages ==> averages[k] == Mean(sums[k], counts[k])
    ensures forall k :: k in counts ==> averages[k] == Mean(TypeTime(events, k), counts[k])
  {
  }

  /** One more event: one more in its type's counter and its execution time
      more in its sum, a new type taking the next place in the key order. */
  method CountEvent(types: seq<string>, counts: map<string, nat>, sums: map<string, nat>, ghost pre: seq<Event>, e: Event)
    returns (types': seq<string>, counts': map<string, nat>, sums': map<string, nat>)
    requires Tallied(pre, types, counts, sums) && OpType(e).Some?
    ensures Tallied(pre + [e], types', counts', sums')
  {
    var k := OpType(e).value;
    if k in counts {
      TalliedSeen(pre, e, types, counts, sums);
      types', counts', sums' := types, counts[k := counts[k] + 1], sums[k := sums[k] + e.executionTime];
    } else {
      TalliedNew(pre, e, types, counts, sums);
      types', counts', sums' := types + [k], counts[k := 1], sums[k := e.executionTime];
    }
  }

  /** The counting loop: per-type counters and execution-time sums in
      first-seen key order, and the total execution time. */
  method CountByType(events: seq<Event>)
    returns (r: Result<(seq<string>, map<string, nat>, map<string, nat>, nat), AggregateError>)
    ensures r.Success? <==> AllTyped(events)
    ensures r.Failure? ==>
      && r.error.MissingOperationType?
      && var i := r.error.index; i < |events| && OpType(events[i]).None? && AllTyped(events[..i])
    ensures r.Success? ==> Tallied(events, r.value.0, r.value.1, r.value.2) && r.value.3 == TotalTime(events)
  {
    var types: seq<string> := [];
    var counts: map<string, nat> := map[];
    var sums: map<string, nat> := map[];
    var total := 0;
    var i := 0;
    TalliedEmpty(events[..0]);
    while i < |events|
      invariant 0 <= i <= |events|
      invariant Tallied(events[..i], types, counts, sums)
      invariant total == TotalTime(events[..i])
    {
      var k;
      match OpType(events[i]) {
        case None =>
          assert !AllTyped(events);
          return Failure(MissingOperationType(i));
        case Some(t) => k := t;
      }
      var time := events[i].executionTime;
      assert events[..i + 1] == events[..i] + [events[i]];
      types, counts, sums := CountEvent(types, counts, sums, events[..i], events[i]);
      TotalSnoc(events[..i], events[i]);
      total := total + time;
      i := i + 1;
    }
    assert events[..i] == events;
    return Success((types, counts, sums, total));
  }

  method AverageExecutionTimes(events: seq<Event>) returns (r: Result<Summary, AggregateError>)
    ensures r.Success? <==> AllTyped(events) && |events| > 0
    ensures r.Failure? && r.error.MissingOperationType? ==>
      var i := r.error.index; i < |events| && OpType(events[i]).None? && AllTyped(events[..i])
    ensures r.Failure? && AllTyped(events) ==> r.error == NoEvents
    ensures r.Failure? && !AllTyped(events) ==> r.error.MissingOperationType?
    ensures r.Success? ==> Summarises(events, r.value)
  {
    var counted := CountByType(events);
    if counted.Failure? {
      return Failure(counted.error);
    }
    var (types, counts, sums, total) := counted.value;
    if |events| == 0 {
      return Failure(NoEvents);
    }
    Tally.CountedTotals(OpTypes(events), types, counts);
    var averages := Averages(types, counts, sums);
    var overall := Mean(total, |events|);
    SummaryCorrect(events, types, counts, sums, averages, total);
    return Success(Summary(types, averages, counts, overall));
  }
}
