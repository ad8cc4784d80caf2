/** A stable sort by descending integer key: what `sorted(xs, key=k,
    reverse=True)` returns. Python's sort stays stable under `reverse=True`,
    so elements with equal keys keep their input order. */
module Sorting {
  import Tally

  predicate NonIncreasing<T>(s: seq<T>, key: T -> int) {
    forall i, j :: 0 <= i < j < |s| ==> key(s[i]) >= key(s[j])
  }

  /** Places `x` before the first element whose key is not above its own. */
  function Insert<T>(x: T, s: seq<T>, key: T -> int): (r: seq<T>)
    ensures multiset(r) == multiset(s) + multiset{x}
    ensures |r| == |s| + 1
    ensures r[0] == x || (|s| > 0 && r[0] == s[0])
  {
    if s == [] || key(s[0]) <= key(x) then [x] + s
    else
      var t := Insert(x, s[1..], key);
      assert s == [s[0]] + s[1..];
      [s[0]] + t
  }

  /** Inserting into a sequence sorted by descending key keeps it sorted. */
  lemma {:induction false} InsertSorted<T>(x: T, s: seq<T>, key: T -> int)
    requires NonIncreasing(s, key)
    ensures NonIncreasing(Insert(x, s, key), key)
  {
    var r := Insert(x, s, key);
    if s == [] || key(s[0]) <= key(x) {
      forall i, j | 0 <= i < j < |r| ensures key(r[i]) >= key(r[j]) {
        if i == 0 {
          assert r[j] == s[j - 1];
        } else {
          assert r[i] == s[i - 1] && r[j] == s[j - 1];
        }
      }
    } else {
      var t := Insert(x, s[1..], key);
      InsertSorted(x, s[1..], key);
      assert r == [s[0]] + t;
      forall i, j | 0 <= i < j < |r| ensures key(r[i]) >= key(r[j]) {
        if i == 0 {
          assert key(s[0]) >= key(t[0]);
          assert r[j] == t[j - 1];
          if j > 1 {
            assert key(t[0]) >= key(t[j - 1]);
          }
        } else {
          assert r[i] == t[i - 1] && r[j] == t[j - 1];
        }
      }
    }
  }

  function SortDescending<T>(s: seq<T>, key: T -> int): (r: seq<T>)
    ensures multiset(r) == multiset(s)
    ensures |r| == |s|
    ensures NonIncreasing(r, key)
  {
    if s == [] then []
    else
      assert s == [s[0]] + s[1..];
      var t := SortDescending(s[1..], key);
      InsertSorted(s[0], t, key);
      Insert(s[0], t, key)
  }

  /** The elements of `s` whose key is `k`, in order. */
  function WithKey<T>(s: seq<T>, key: T -> int, k: int): seq<T> {
    if s == [] then [] else (if key(s[0]) == k then [s[0]] else []) + WithKey(s[1..], key, k)
  }

  lemma {:induction false} InsertWithKey<T>(x: T, s: seq<T>, key: T -> int, k: int)
    ensures WithKey(Insert(x, s, key), key, k) == (if key(x) == k then [x] else []) + WithKey(s, key, k)
  {
    var r := Insert(x, s, key);
    if s == [] || key(s[0]) <= key(x) {
      assert r == [x] + s && r[0] == x && r[1..] == s;
    } else {
      var t := Insert(x, s[1..], key);
      InsertWithKey(x, s[1..], key, k);
      assert r == [s[0]] + t && r[0] == s[0] && r[1..] == t;
      var head := if key(s[0]) == k then [s[0]] else [];
      assert WithKey(r, key, k) == head + WithKey(t, key, k);
      assert WithKey(s, key, k) == head + WithKey(s[1..], key, k);
      // `x` and `s[0]` have different keys, so at most one of them is kept
      assert key(x) == k ==> head == [];
    }
  }

  /** Stability: for every key, the elements carrying it appear in the
      result in the same order as in the input. */
  lemma {:induction false} SortStable<T>(s: seq<T>, key: T -> int, k: int)
    ensures WithKey(SortDescending(s, key), key, k) == WithKey(s, key, k)
  {
    if s != [] {
      SortStable(s[1..], key, k);
      InsertWithKey(s[0], SortDescending(s[1..], key), key, k);
    }
  }

  function SumKeys<T>(s: seq<T>, key: T -> int): int {
    if s == [] then 0 else key(s[0]) + SumKeys(s[1..], key)
  }

  lemma {:induction false} InsertSumKeys<T>(x: T, s: seq<T>, key: T -> int)
    ensures SumKeys(Insert(x, s, key), key) == key(x) + SumKeys(s, key)
  {
    var r := Insert(x, s, key);
    if s == [] || key(s[0]) <= key(x) {
      assert r[1..] == s;
    } else {
      InsertSumKeys(x, s[1..], key);
      assert r[1..] == Insert(x, s[1..], key);
    }
  }

  /** Sorting keeps the total of the keys. */
  lemma {:induction false} SortSumKeys<T>(s: seq<T>, key: T -> int)
    ensures SumKeys(SortDescending(s, key), key) == SumKeys(s, key)
  {
    if s != [] {
      SortSumKeys(s[1..], key);
      InsertSumKeys(s[0], SortDescending(s[1..], key), key);
    }
  }

  lemma {:induction false} InsertNoDuplicates<T>(x: T, s: seq<T>, key: T -> int)
    requires Tally.NoDuplicates(s) && x !in s
    ensures Tally.NoDuplicates(Insert(x, s, key))
  {
    if s != [] && key(s[0]) > key(x) {
      var t := Insert(x, s[1..], key);
      InsertNoDuplicates(x, s[1..], key);
      assert s[0] !in multiset(t);
    }
  }

  /** Sorting a sequence without repeated elements repeats none. */
  lemma {:induction false} SortNoDuplicates<T>(s: seq<T>, key: T -> int)
    requires Tally.NoDuplicates(s)
    ensures Tally.NoDuplicates(SortDescending(s, key))
  {
    if s != [] {
      SortNoDuplicates(s[1..], key);
      assert s[0] !in multiset(SortDescending(s[1..], key));
      InsertNoDuplicates(s[0], SortDescending(s[1..], key), key);
    }
  }

  lemma SortMembers<T>(s: seq<T>, key: T -> int)
    ensures forall x :: x in SortDescending(s, key) <==> x in s
  {
    var r := SortDescending(s, key);
    forall x ensures x in r <==> x in s {
      assert x in r <==> x in multiset(r);
      assert x in s <==> x in multiset(s);
    }
  }
}
