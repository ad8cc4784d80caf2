/** The execution-time distribution: per operation type, how many events
    fall under each threshold, an event counting under the first threshold
    of the list that its execution time does not exceed. */
module Distribution {
  import opened Wrappers
  import opened Events
  import Tally

  /** The thresholds of the report, in milliseconds. */
  const Thresholds: seq<int> := [10, 50, 100, 200, 500, 1000, 2000, 5000, 10000]

  predicate Ascending(ths: seq<int>) {
    forall i, j :: 0 <= i < j < |ths| ==> ths[i] < ths[j]
  }

  /** The position of the first threshold not below `t`; `|ths|` when there is none. */
  function FirstAtLeast(ths: seq<int>, t: int): (i: nat)
    ensures i <= |ths|
    ensures forall j :: 0 <= j < i ==> ths[j] < t
    ensures i < |ths| ==> t <= ths[i]
  {
    if ths == [] then 0
    else if t <= ths[0] then 0
    else 1 + FirstAtLeast(ths[1..], t)
  }

  /** The threshold an execution time `t` is counted under, if any. */
  function Bucket(ths: seq<int>, t: int): (b: Option<int>)
    ensures b.Some? <==> exists i :: 0 <= i < |ths| && t <= ths[i]
    ensures b.Some? ==> b.value in ths && t <= b.value
  {
    var i := FirstAtLeast(ths, t);
    if i < |ths| then Some(ths[i]) else None
  }

  /** With ascending thresholds the bucket is the least threshold not below
      `t`, and the threshold before it (if any) is below `t`: the bucket of
      `th` collects the times in the interval from the previous threshold
      (excluded) to `th` (included). */
  lemma BucketLeast(ths: seq<int>, t: int)
    requires Ascending(ths) && Bucket(ths, t).Some?
    ensures forall th :: th in ths && t <= th ==> Bucket(ths, t).value <= th
    ensures forall th :: th in ths && th < Bucket(ths, t).value ==> th < t
  {
    var i := FirstAtLeast(ths, t);
    forall th | th in ths ensures t <= th ==> ths[i] <= th
      ensures th < ths[i] ==> th < t
    {
      var j :| 0 <= j < |ths| && ths[j] == th;
      if j < i {
        assert th < t;
      }
    }
  }

  /** With ascending thresholds an execution time is counted exactly when it
      does not exceed the last threshold. */
  lemma BucketUnderLast(ths: seq<int>, t: int)
    requires Ascending(ths) && |ths| > 0
    ensures Bucket(ths, t).Some? <==> t <= ths[|ths| - 1]
  {
    if Bucket(ths, t).Some? {
      var i :| 0 <= i < |ths| && t <= ths[i];
      if i < |ths| - 1 {
        assert ths[i] < ths[|ths| - 1];
      }
    }
  }

  lemma ThresholdsAscending()
    ensures Ascending(Thresholds)
  {
  }

  /** The number of events of type `k` counted under the threshold `th`. */
  function BucketCount(events: seq<Event>, ths: seq<int>, k: string, th: int): nat {
    if events == [] then 0
    else
      var e := events[|events| - 1];
      BucketCount(events[..|events| - 1], ths, k, th)
        + (if OpType(e) == Some(k) && Bucket(ths, e.executionTime) == Some(th) then 1 else 0)
  }

  /** The row of type `k`: one counter per threshold. */
  function Row(events: seq<Event>, ths: seq<int>, k: string): (row: map<int, nat>)
    ensures forall th :: th in row <==> th in ths
  {
    map th | th in ths :: BucketCount(events, ths, k, th)
  }

  /** A fresh row, `{threshold: 0 for threshold in thresholds}`. */
  function Zeros(ths: seq<int>): (row: map<int, nat>)
    ensures forall th :: th in row <==> th in ths
    ensures forall th :: th in row ==> row[th] == 0
  {
    map th | th in ths :: 0
  }

  /** One more event in the bucket `b`, if it has one. */
  function Bump(row: map<int, nat>, b: Option<int>): map<int, nat> {
    if b.Some? && b.value in row then row[b.value := row[b.value] + 1] else row
  }

  /** The distribution after the events `pre`: one row per operation type
      seen, in first-seen order, each counting that type's events per bucket. */
  ghost predicate Distributed(pre: seq<Event>, ths: seq<int>, types: seq<string>, dist: map<string, map<int, nat>>) {
    && AllTyped(pre)
    && types == Tally.Distinct(OpTypes(pre))
    && Tally.KeysAre(dist, types)
    && RowsMatch(pre, ths, dist)
  }

  ghost predicate RowsMatch(pre: seq<Event>, ths: seq<int>, dist: map<string, map<int, nat>>) {
    forall k :: k in dist ==> dist[k] == Row(pre, ths, k)
  }

  lemma BucketCountSnoc(pre: seq<Event>, e: Event, ths: seq<int>, k: string, th: int)
    ensures BucketCount(pre + [e], ths, k, th)
         == BucketCount(pre, ths, k, th) + (if OpType(e) == Some(k) && Bucket(ths, e.executionTime) == Some(th) then 1 else 0)
  {
    assert (pre + [e])[..|pre|] == pre;
  }

  lemma RowSnoc(pre: seq<Event>, e: Event, ths: seq<int>, k: string)
    ensures Row(pre + [e], ths, k) == if OpType(e) == Some(k) then Bump(Row(pre, ths, k), Bucket(ths, e.executionTime)) else Row(pre, ths, k)
  {
    var before := Row(pre, ths, k);
    var after := Row(pre + [e], ths, k);
    var b := Bucket(ths, e.executionTime);
    var want := if OpType(e) == Some(k) then Bump(before, b) else before;
    assert want.Keys == before.Keys;
    forall th | th in ths ensures after[th] == want[th] {
      BucketCountSnoc(pre, e, ths, k, th);
    }
    assert after.Keys == want.Keys;
  }

  lemma {:induction false} RowAbsent(pre: seq<Event>, ths: seq<int>, k: string)
    requires AllTyped(pre) && k !in OpTypes(pre)
    ensures Row(pre, ths, k) == Zeros(ths)
  {
    if pre != [] {
      var init := pre[..|pre| - 1];
      var e := pre[|pre| - 1];
      assert pre == init + [e];
      SnocTypes(init, e);
      RowAbsent(init, ths, k);
      RowSnoc(init, e, ths, k);
    } else {
      forall th | th in ths ensures BucketCount(pre, ths, k, th) == 0 { }
    }
  }

  lemma DistributedEmpty(pre: seq<Event>, ths: seq<int>)
    requires pre == []
    ensures Distributed(pre, ths, [], map[])
  {
    assert OpTypes(pre) == [];
  }

  lemma RowsStep(pre: seq<Event>, e: Event, ths: seq<int>, dist: map<string, map<int, nat>>, row: map<int, nat>)
    requires RowsMatch(pre, ths, dist) && OpType(e).Some?
    requires row == Row(pre, ths, OpType(e).value)
    ensures RowsMatch(pre + [e], ths, dist[OpType(e).value := Bump(row, Bucket(ths, e.executionTime))])
  {
    forall k' {
      RowSnoc(pre, e, ths, k');
    }
  }

  /** One more event: its type's row (fresh if the type is new) gets one
      more in the event's bucket, and every other row stays as it was. */
  lemma DistributedStep(pre: seq<Event>, e: Event, ths: seq<int>, types: seq<string>, dist: map<string, map<int, nat>>)
    requires Distributed(pre, ths, types, dist) && OpType(e).Some?
    ensures var k := OpType(e).value;
      var row := if k in dist then dist[k] else Zeros(ths);
      Distributed(pre + [e], ths, if k in dist then types else types + [k],
                  dist[k := Bump(row, Bucket(ths, e.executionTime))])
  {
    var k := OpType(e).value;
    var names := OpTypes(pre);
    SnocTypes(pre, e);
    Tally.DistinctMembers(names, k);
    Tally.DistinctSnoc(names, k);
    var row := if k in dist then dist[k] else Zeros(ths);
    if k !in dist {
      RowAbsent(pre, ths, k);
    }
    RowsStep(pre, e, ths, dist, row);
    var types' := if k in dist then types else types + [k];
    var dist' := dist[k := Bump(row, Bucket(ths, e.executionTime))];
    assert Tally.KeysAre(dist', types');
  }

  /** The number of events of type `k` whose time is under some threshold. */
  function Placed(events: seq<Event>, ths: seq<int>, k: string): nat {
    if events == [] then 0
    else
      var e := events[|events| - 1];
      Placed(events[..|events| - 1], ths, k) + (if OpType(e) == Some(k) && Bucket(ths, e.executionTime).Some? then 1 else 0)
  }

  /** The sum of the counters of `row` at the thresholds `keys` (a key the
      row lacks adds nothing). */
  function SumRow(keys: seq<int>, row: map<int, nat>): nat {
    if keys == [] then 0 else (if keys[0] in row then row[keys[0]] else 0) + SumRow(keys[1..], row)
  }

  lemma {:induction false} SumRowZeros(keys: seq<int>, ths: seq<int>)
    ensures SumRow(keys, Zeros(ths)) == 0
  {
    if keys != [] {
      SumRowZeros(keys[1..], ths);
    }
  }

  lemma {:induction false} SumRowBump(keys: seq<int>, row: map<int, nat>, b: int)
    requires b in row
    ensures SumRow(keys, row[b := row[b] + 1]) == SumRow(keys, row) + Tally.Count(keys, b)
  {
    if keys != [] {
      SumRowBump(keys[1..], row, b);
    }
  }

  /** The thresholds, each once, are keys of every row. */
  lemma DistinctInRow(events: seq<Event>, ths: seq<int>, k: string)
    ensures forall i :: 0 <= i < |Tally.Distinct(ths)| ==> Tally.Distinct(ths)[i] in Row(events, ths, k)
  {
    Tally.DistinctSame(ths);
  }

  /** One more event changes a row's total by one exactly when it is of the
      row's type and falls under some threshold. */
  lemma RowTotalSnoc(pre: seq<Event>, e: Event, ths: seq<int>, k: string)
    ensures SumRow(Tally.Distinct(ths), Row(pre + [e], ths, k))
         == SumRow(Tally.Distinct(ths), Row(pre, ths, k))
            + (if OpType(e) == Some(k) && Bucket(ths, e.executionTime).Some? then 1 else 0)
  {
    var keys := Tally.Distinct(ths);
    RowSnoc(pre, e, ths, k);
    var b := Bucket(ths, e.executionTime);
    if OpType(e) == Some(k) && b.Some? {
      Tally.DistinctMembers(ths, b.value);
      SumRowBump(keys, Row(pre, ths, k), b.value);
      Tally.CountOnce(keys, b.value);
    }
  }

  /** Conservation: the counters of a row add up to the number of events of
      that type that fall under some threshold; an event slower than every
      threshold is counted nowhere. A threshold listed twice is one key and
      counts once. */
  lemma {:induction false} RowTotal(events: seq<Event>, ths: seq<int>, k: string)
    ensures forall i :: 0 <= i < |Tally.Distinct(ths)| ==> Tally.Distinct(ths)[i] in Row(events, ths, k)
    ensures SumRow(Tally.Distinct(ths), Row(events, ths, k)) == Placed(events, ths, k)
    decreases |events|
  {
    DistinctInRow(events, ths, k);
    if events == [] {
      Tally.DistinctSame(ths);
      assert Row(events, ths, k) == Zeros(ths);
      SumRowZeros(Tally.Distinct(ths), ths);
    } else {
      var pre := events[..|events| - 1];
      var e := events[|events| - 1];
      assert events == pre + [e];
      RowTotal(pre, ths, k);
      RowTotalSnoc(pre, e, ths, k);
    }
  }

  /** The number of events of type `k` whose time does not exceed `bound`. */
  function AtMost(events: seq<Event>, k: string, bound: int): nat {
    if events == [] then 0
    else
      var e := events[|events| - 1];
      AtMost(events[..|events| - 1], k, bound) + (if OpType(e) == Some(k) && e.executionTime <= bound then 1 else 0)
  }

  /** With ascending thresholds, an event is placed exactly when its time
      does not exceed the last threshold. */
  lemma {:induction false} PlacedUnderLast(events: seq<Event>, ths: seq<int>, k: string)
    requires Ascending(ths) && |ths| > 0
    ensures Placed(events, ths, k) == AtMost(events, k, ths[|ths| - 1])
    decreases |events|
  {
    if events != [] {
      var e := events[|events| - 1];
      PlacedUnderLast(events[..|events| - 1], ths, k);
      BucketUnderLast(ths, e.executionTime);
    }
  }

  /** Coverage: with ascending thresholds, a row's counters add up to the
      number of events of its type whose time does not exceed the last
      threshold. */
  lemma RowCoversUnderLast(events: seq<Event>, ths: seq<int>, k: string)
    requires Ascending(ths) && |ths| > 0
    ensures SumRow(Tally.Distinct(ths), Row(events, ths, k)) == AtMost(events, k, ths[|ths| - 1])
  {
    RowTotal(events, ths, k);
    PlacedUnderLast(events, ths, k);
  }

  /** Every row of a finished distribution obeys `RowTotal`. */
  lemma DistributionTotals(events: seq<Event>, ths: seq<int>, types: seq<string>, dist: map<string, map<int, nat>>)
    requires Distributed(events, ths, types, dist)
    ensures forall k :: k in dist ==> (forall i :: 0 <= i < |Tally.Distinct(ths)| ==> Tally.Distinct(ths)[i] in dist[k])
    ensures forall k :: k in dist ==> SumRow(Tally.Distinct(ths), dist[k]) == Placed(events, ths, k)
  {
    forall k | k in dist
      ensures (forall i :: 0 <= i < |Tally.Distinct(ths)| ==> Tally.Distinct(ths)[i] in dist[k])
      ensures SumRow(Tally.Distinct(ths), dist[k]) == Placed(events, ths, k)
    {
      RowTotal(events, ths, k);
    }
  }

  /** The inner loop of the reducer: one more in the row's counter of the
      first threshold that `time` does not exceed, and nothing when it
      exceeds them all. */
  method CountUnderThreshold(row: map<int, nat>, thresholds: seq<int>, time: int) returns (row': map<int, nat>)
    requires forall th :: th in thresholds ==> th in row
    ensures row' == Bump(row, Bucket(thresholds, time))
  {
    row' := row;
    for j := 0 to |thresholds|
      invariant j <= FirstAtLeast(thresholds, time)
      invariant row' == row
    {
      if time <= thresholds[j] {
        row' := row'[thresholds[j] := row'[thresholds[j]] + 1];
        break;
      }
    }
  }

  /** One event of type `k` and execution time `time`: a fresh row for a new
      type, then one more under its threshold. */
  method CountEvent(thresholds: seq<int>, types: seq<string>, dist: map<string, map<int, nat>>, k: string, time: int)
    returns (types': seq<string>, dist': map<string, map<int, nat>>)
    requires k in dist ==> forall th :: th in thresholds ==> th in dist[k]
    ensures types' == if k in dist then types else types + [k]
    ensures dist' == dist[k := Bump(if k in dist then dist[k] else Zeros(thresholds), Bucket(thresholds, time))]
  {
    types', dist' := types, dist;
    if k !in dist' {
      dist' := dist'[k := Zeros(thresholds)];
      types' := types' + [k];
    }
    var row := CountUnderThreshold(dist'[k], thresholds, time);
    dist' := dist'[k := row];
  }

  /** `calculate_execution_time_distribution`: fails, like the dictionary
      lookup, on the first event without a plain operation type. */
  method ExecutionTimeDistribution(events: seq<Event>, thresholds: seq<int>)
    returns (r: Result<(seq<string>, map<string, map<int, nat>>), AggregateError>)
    ensures r.Success? <==> AllTyped(events)
    ensures r.Failure? ==>
      && r.error.MissingOperationType?
      && var i := r.error.index; i < |events| && OpType(events[i]).None? && AllTyped(events[..i])
    ensures r.Success? ==> Distributed(events, thresholds, r.value.0, r.value.1)
  {
    var types: seq<string> := [];
    var dist: map<string, map<int, nat>> := map[];
    DistributedEmpty(events[..0], thresholds);
    var i := 0;
    while i < |events|
      invariant 0 <= i <= |events|
      invariant Distributed(events[..i], thresholds, types, dist)
    {
      assert events[..i + 1] == events[..i] + [events[i]];
      var k;
      match OpType(events[i]) {
        case None =>
          assert !AllTyped(events);
          return Failure(MissingOperationType(i));
        case Some(t) => k := t;
      }
      assert k in dist ==> dist[k] == Row(events[..i], thresholds, k);
      DistributedStep(events[..i], events[i], thresholds, types, dist);
      types, dist := CountEvent(thresholds, types, dist, k, events[i].executionTime);
      i := i + 1;
    }
    assert events[..i] == events;
    return Success((types, dist));
  }
}
