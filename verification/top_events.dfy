/** The slowest events: a stable sort by execution time, descending, cut to
    the requested length with Python's slice `[:n]`. */
module TopEvents {
  import opened Events
  import opened Sorting

  /** Where `xs[:n]` stops on a sequence of length `len` (a negative `n`
      counts from the end). */
  function SliceEnd(n: int, len: nat): (e: nat)
    ensures e <= len
    ensures n >= 0 ==> e == if n < len then n else len
    ensures n < 0 ==> e == if len + n > 0 then len + n else 0
  {
    if n >= len then len
    else if n >= 0 then n
    else if len + n > 0 then len + n
    else 0
  }

  function HighestExecutionTimes(events: seq<Event>, n: int): (r: seq<Event>)
    ensures |r| == SliceEnd(n, |events|)
    ensures NonIncreasing(r, ExecTime)
    ensures multiset(r) <= multiset(events)
    ensures n >= |events| ==> multiset(r) == multiset(events)
  {
    var sorted := SortDescending(events, ExecTime);
    var m := SliceEnd(n, |events|);
    assert sorted == sorted[..m] + sorted[m..];
    sorted[..m]
  }

  /** In a sequence sorted by descending time, everything before a cut is
      no faster than everything after it. */
  lemma PrefixDominates(sorted: seq<Event>, m: nat)
    requires m <= |sorted| && NonIncreasing(sorted, ExecTime)
    ensures forall x, y :: x in sorted[..m] && y in sorted[m..] ==> x.executionTime >= y.executionTime
  {
    forall x, y | x in sorted[..m] && y in sorted[m..]
      ensures x.executionTime >= y.executionTime
    {
      var i :| 0 <= i < m && sorted[..m][i] == x;
      var j :| 0 <= j < |sorted| - m && sorted[m..][j] == y;
      assert ExecTime(sorted[i]) >= ExecTime(sorted[m + j]);
    }
  }

  /** Every event left out is no slower than every event returned. */
  lemma TopIsTop(events: seq<Event>, n: int)
    ensures var r := HighestExecutionTimes(events, n);
      forall x, y :: x in r && y in multiset(events) - multiset(r) ==> x.executionTime >= y.executionTime
  {
    var sorted := SortDescending(events, ExecTime);
    var m := SliceEnd(n, |events|);
    var r := sorted[..m];
    var rest := sorted[m..];
    assert sorted == r + rest;
    assert multiset(events) - multiset(r) == multiset(rest);
    PrefixDominates(sorted, m);
    forall y | y in multiset(events) - multiset(r) ensures y in rest {
      assert y in multiset(rest);
    }
  }

  /** Events with the same execution time come out in their input order:
      those returned are the first of them. */
  lemma TopKeepsTies(events: seq<Event>, n: int, t: int)
    ensures var r := HighestExecutionTimes(events, n);
      WithKey(r, ExecTime, t) <= WithKey(events, ExecTime, t)
  {
    var sorted := SortDescending(events, ExecTime);
    var m := SliceEnd(n, |events|);
    SortStable(events, ExecTime, t);
    WithKeyPrefix(sorted, m, t);
  }

  lemma {:induction false} WithKeyPrefix(s: seq<Event>, m: nat, t: int)
    requires m <= |s|
    ensures WithKey(s[..m], ExecTime, t) <= WithKey(s, ExecTime, t)
  {
    if m > 0 {
      WithKeyPrefix(s[1..], m - 1, t);
      assert s[..m][1..] == s[1..][..m - 1];
    }
  }
}
