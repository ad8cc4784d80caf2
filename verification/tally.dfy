/** Occurrence counting over sequences, the arithmetic behind the counter
    dictionaries of the reducers (Python dictionaries keep first-insertion
    order, so a dictionary of counters is a first-seen key list plus a map). */
module Tally {

  function Count<T(==)>(s: seq<T>, x: T): (n: nat)
    ensures n > 0 <==> x in s
    ensures n <= |s|
  {
    if s == [] then 0 else (if s[0] == x then 1 else 0) + Count(s[1..], x)
  }

  lemma {:induction false} CountAppend<T>(a: seq<T>, b: seq<T>, x: T)
    ensures Count(a + b, x) == Count(a, x) + Count(b, x)
  {
    if a == [] {
      assert a + b == b;
    } else {
      assert (a + b)[1..] == a[1..] + b;
      CountAppend(a[1..], b, x);
    }
  }

  predicate NoDuplicates<T(==)>(s: seq<T>) {
    forall i, j :: 0 <= i < j < |s| ==> s[i] != s[j]
  }

  /** The keys of `s` in first-seen order, each once. */
  function Distinct<T(==)>(s: seq<T>): (d: seq<T>)
    ensures NoDuplicates(d)
    decreases |s|
  {
    if s == [] then []
    else
      var d := Distinct(s[..|s| - 1]);
      var x := s[|s| - 1];
      if x in d then d else d + [x]
  }

  /** The distinct keys are exactly the elements. */
  lemma {:induction false} DistinctMembers<T>(s: seq<T>, x: T)
    ensures x in Distinct(s) <==> x in s
    decreases |s|
  {
    if s != [] {
      var init := s[..|s| - 1];
      assert s == init + [s[|s| - 1]];
      DistinctMembers(init, x);
    }
  }

  lemma DistinctSame<T>(s: seq<T>)
    ensures forall x :: x in Distinct(s) <==> x in s
  {
    forall x ensures x in Distinct(s) <==> x in s {
      DistinctMembers(s, x);
    }
  }

  lemma DistinctSnoc<T>(s: seq<T>, x: T)
    ensures Distinct(s + [x]) == if x in Distinct(s) then Distinct(s) else Distinct(s) + [x]
  {
    assert (s + [x])[..|s|] == s;
  }

  lemma CountSnoc<T>(s: seq<T>, x: T, y: T)
    ensures Count(s + [x], y) == Count(s, y) + (if x == y then 1 else 0)
  {
    CountAppend(s, [x], y);
  }

  lemma {:induction false} CountOnce<T>(d: seq<T>, x: T)
    requires NoDuplicates(d) && x in d
    ensures Count(d, x) == 1
  {
    if d[0] != x {
      CountOnce(d[1..], x);
    } else {
      assert x !in d[1..];
    }
  }

  /** The sum of the counts of the keys `d` in `s`. */
  function SumCounts<T(==)>(d: seq<T>, s: seq<T>): nat {
    if d == [] then 0 else Count(s, d[0]) + SumCounts(d[1..], s)
  }

  lemma {:induction false} SumCountsSnoc<T>(d: seq<T>, s: seq<T>, x: T)
    ensures SumCounts(d, s + [x]) == SumCounts(d, s) + Count(d, x)
  {
    if d != [] {
      CountAppend(s, [x], d[0]);
      SumCountsSnoc(d[1..], s, x);
    }
  }

  lemma {:induction false} SumCountsEmpty<T>(d: seq<T>, s: seq<T>)
    requires s == []
    ensures SumCounts(d, s) == 0
  {
    if d != [] {
      SumCountsEmpty(d[1..], s);
    }
  }

  /** Conservation: when every element of `s` is one of the distinct keys
      `d`, the counts of the keys add up to the length of `s`. */
  lemma {:induction false} SumCountsAll<T>(d: seq<T>, s: seq<T>)
    requires NoDuplicates(d)
    requires forall x :: x in s ==> x in d
    ensures SumCounts(d, s) == |s|
    decreases |s|
  {
    if s == [] {
      SumCountsEmpty(d, s);
    } else {
      var init := s[..|s| - 1];
      var x := s[|s| - 1];
      assert s == init + [x];
      SumCountsAll(d, init);
      SumCountsSnoc(d, init, x);
      CountOnce(d, x);
    }
  }

  // ---------------------------------------------------------------- counter dictionaries

  /** `m` has exactly the keys listed in `keys`. */
  ghost predicate KeysAre<T(!new), V>(m: map<T, V>, keys: seq<T>) {
    forall k :: k in m <==> k in keys
  }

  /** Every counter in `counts` is the number of occurrences of its key in `names`. */
  ghost predicate CountsMatch<T(!new)>(names: seq<T>, counts: map<T, nat>) {
    forall k :: k in counts ==> counts[k] == Count(names, k)
  }

  /** A counter dictionary after the elements `names`, one at a time:
      its keys in first-seen order, each counting its occurrences. */
  ghost predicate Counted<T(!new)>(names: seq<T>, keys: seq<T>, counts: map<T, nat>) {
    keys == Distinct(names) && KeysAre(counts, keys) && CountsMatch(names, counts)
  }

  lemma CountedEmpty<T(!new)>()
    ensures Counted<T>([], [], map[])
  {
  }

  /** `counts[x] += 1` for a key already present. */
  lemma CountedSeen<T(!new)>(names: seq<T>, x: T, keys: seq<T>, counts: map<T, nat>)
    requires Counted(names, keys, counts) && x in counts
    ensures Counted(names + [x], keys, counts[x := counts[x] + 1])
  {
    DistinctMembers(names, x);
    DistinctSnoc(names, x);
    var counts' := counts[x := counts[x] + 1];
    forall k | k in counts' ensures counts'[k] == Count(names + [x], k) {
      CountSnoc(names, x, k);
    }
  }

  /** `counts[x] = 1` for a new key, which goes to the end of the key order. */
  lemma CountedNew<T(!new)>(names: seq<T>, x: T, keys: seq<T>, counts: map<T, nat>)
    requires Counted(names, keys, counts) && x !in counts
    ensures Counted(names + [x], keys + [x], counts[x := 1])
  {
    DistinctMembers(names, x);
    DistinctSnoc(names, x);
    var counts' := counts[x := 1];
    forall k | k in counts' ensures counts'[k] == Count(names + [x], k) {
      CountSnoc(names, x, k);
    }
  }

  /** What a finished counter dictionary holds: its keys are the elements,
      each counter positive, and the counters add up to the number of elements. */
  lemma CountedTotals<T(!new)>(names: seq<T>, keys: seq<T>, counts: map<T, nat>)
    requires Counted(names, keys, counts)
    ensures forall k :: k in keys <==> k in names
    ensures forall k :: k in counts ==> counts[k] > 0
    ensures SumCounts(keys, names) == |names|
  {
    DistinctSame(names);
    SumCountsAll(keys, names);
  }
}
