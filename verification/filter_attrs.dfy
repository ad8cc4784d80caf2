/** The filter-attribute summary: every attribute name that opens a
    parenthesised comparison in an event's `filter` text, counted over all
    events and listed by descending count. */
module FilterAttrs {
  import opened Wrappers
  import opened Events
  import Tally
  import opened Sorting

  // ---------------------------------------------------------------- the pattern \((\w+)=

  /** A word character (`\w`), over ASCII: a letter, a digit or `_`. */
  predicate IsWordChar(c: char) {
    ('a' <= c <= 'z') || ('A' <= c <= 'Z') || ('0' <= c <= '9') || c == '_'
  }

  /** The length of the run of word characters that starts at `from`. */
  function WordRun(s: string, from: nat): (n: nat)
    requires from <= |s|
    ensures from + n <= |s|
    ensures forall j :: from <= j < from + n ==> IsWordChar(s[j])
    ensures from + n == |s| || !IsWordChar(s[from + n])
    decreases |s| - from
  {
    if from == |s| || !IsWordChar(s[from]) then 0 else 1 + WordRun(s, from + 1)
  }

  /** The pattern matches at `p`: an opening parenthesis, the longest word
      after it, non-empty, and an equals sign right after the word. */
  predicate MatchAt(s: string, p: nat) {
    && p < |s|
    && s[p] == '('
    && var n := WordRun(s, p + 1);
       n > 0 && p + 1 + n < |s| && s[p + 1 + n] == '='
  }

  /** The captured group of a match at `p`. */
  function Name(s: string, p: nat): (w: string)
    requires MatchAt(s, p)
    ensures |w| > 0
    ensures forall j :: 0 <= j < |w| ==> IsWordChar(w[j])
  {
    s[p + 1..p + 1 + WordRun(s, p + 1)]
  }

  /** `s[p..]` starts with `(`, the word `w` and `=`. */
  predicate OccursAt(s: string, p: nat, w: string) {
    p + |w| + 2 <= |s| && s[p] == '(' && s[p + 1..p + 1 + |w|] == w && s[p + 1 + |w|] == '='
  }

  /** The greedy `\w+` loses nothing: the pattern matches at `p` exactly
      when some non-empty word sits between a parenthesis and an equals
      sign there, and that word is then the one captured. */
  lemma MatchAtMeans(s: string, p: nat, w: string)
    requires |w| > 0 && forall j :: 0 <= j < |w| ==> IsWordChar(w[j])
    ensures OccursAt(s, p, w) ==> MatchAt(s, p) && Name(s, p) == w
    ensures MatchAt(s, p) ==> OccursAt(s, p, Name(s, p))
  {
    if OccursAt(s, p, w) {
      forall j | p + 1 <= j < p + 1 + |w| ensures IsWordChar(s[j]) {
        assert s[j] == w[j - p - 1];
      }
    }
  }

  /** `re.findall` from position `p`: try the pattern at each position,
      and after a match carry on where it ended. */
  function FindAll(s: string, p: nat): (r: seq<string>)
    ensures forall i :: 0 <= i < |r| ==> |r[i]| > 0 && forall j :: 0 <= j < |r[i]| ==> IsWordChar(r[i][j])
    decreases |s| - p
  {
    if p >= |s| then []
    else if MatchAt(s, p) then [Name(s, p)] + FindAll(s, p + 2 + WordRun(s, p + 1))
    else FindAll(s, p + 1)
  }

  /** The names captured in the filter text `s`, in order. */
  function FilterAttributes(s: string): (r: seq<string>)
    ensures forall i :: 0 <= i < |r| ==> |r[i]| > 0 && forall j :: 0 <= j < |r[i]| ==> IsWordChar(r[i][j])
  {
    FindAll(s, 0)
  }

  /** Reference reading: the names of the matches at every position, left to right. */
  function MatchesFrom(s: string, p: nat): seq<string>
    decreases |s| - p
  {
    if p >= |s| then [] else (if MatchAt(s, p) then [Name(s, p)] else []) + MatchesFrom(s, p + 1)
  }

  /** Positions without a parenthesis start no match. */
  lemma {:induction false} SkipNoParen(s: string, p: nat, q: nat)
    requires p <= q <= |s|
    requires forall j :: p <= j < q ==> s[j] != '('
    ensures MatchesFrom(s, p) == MatchesFrom(s, q)
    decreases q - p
  {
    if p < q {
      SkipNoParen(s, p + 1, q);
    }
  }

  /** Resuming after a match skips no match: `findall` finds the match at
      every position, because a match contains no parenthesis after its first. */
  lemma {:induction false} FindAllEveryMatch(s: string, p: nat)
    ensures FindAll(s, p) == MatchesFrom(s, p)
    decreases |s| - p
  {
    if p < |s| {
      if MatchAt(s, p) {
        var n := WordRun(s, p + 1);
        var q := p + 2 + n;
        forall j | p + 1 <= j < q ensures s[j] != '(' {
          if j < p + 1 + n {
            assert IsWordChar(s[j]);
          }
        }
        FindAllEveryMatch(s, q);
        SkipNoParen(s, p + 1, q);
        assert FindAll(s, p) == [Name(s, p)] + FindAll(s, q);
        assert MatchesFrom(s, p) == [Name(s, p)] + MatchesFrom(s, p + 1);
      } else {
        FindAllEveryMatch(s, p + 1);
      }
    }
  }

  // ---------------------------------------------------------------- over the events

  /** The names an event contributes: those of a plain `filter` text. */
  function FilterOf(e: Event): seq<string> {
    if FilterKey in e.attrs && e.attrs[FilterKey].Single? then FilterAttributes(e.attrs[FilterKey].text) else []
  }

  /** No event has a repeated `filter` line (the regex search cannot take a list). */
  predicate FiltersText(events: seq<Event>) {
    forall i :: 0 <= i < |events| && FilterKey in events[i].attrs ==> events[i].attrs[FilterKey].Single?
  }

  /** Every captured name of every event, in event order. */
  function FilterNames(events: seq<Event>): seq<string> {
    if events == [] then [] else FilterNames(events[..|events| - 1]) + FilterOf(events[|events| - 1])
  }

  lemma FilterNamesSnoc(pre: seq<Event>, e: Event)
    ensures FilterNames(pre + [e]) == FilterNames(pre) + FilterOf(e)
  {
    assert (pre + [e])[..|pre|] == pre;
  }

  function CountOf(p: (string, nat)): int {
    p.1
  }

  /** Each key with its number of occurrences in `names`, in key order. */
  function Pairs(keys: seq<string>, names: seq<string>): (r: seq<(string, nat)>)
    ensures |r| == |keys|
    ensures forall i :: 0 <= i < |r| ==> r[i] == (keys[i], Tally.Count(names, keys[i]))
  {
    seq(|keys|, i requires 0 <= i < |keys| => (keys[i], Tally.Count(names, keys[i])))
  }

  /** The summary: the counters in first-seen order, then sorted stably by
      descending count. */
  function AttributeCounts(names: seq<string>): seq<(string, nat)> {
    SortDescending(Pairs(Tally.Distinct(names), names), CountOf)
  }

  lemma {:induction false} PairsSum(keys: seq<string>, names: seq<string>)
    ensures SumKeys(Pairs(keys, names), CountOf) == Tally.SumCounts(keys, names)
  {
    if keys != [] {
      assert Pairs(keys, names)[1..] == Pairs(keys[1..], names);
      PairsSum(keys[1..], names);
    }
  }

  /** Each entry of the summary pairs a captured name with its number of
      occurrences, and no name has two entries. */
  lemma AttributeCountsEntries(names: seq<string>)
    ensures var r := AttributeCounts(names);
      && (forall i :: 0 <= i < |r| ==> r[i].0 in names && r[i].1 == Tally.Count(names, r[i].0))
      && (forall i, j :: 0 <= i < j < |r| ==> r[i].0 != r[j].0)
  {
    var keys := Tally.Distinct(names);
    var pairs := Pairs(keys, names);
    Tally.DistinctSame(names);
    var r := AttributeCounts(names);
    SortMembers(pairs, CountOf);
    forall i | 0 <= i < |r| ensures r[i].0 in names && r[i].1 == Tally.Count(names, r[i].0) {
      assert r[i] in pairs;
      var k :| 0 <= k < |pairs| && pairs[k] == r[i];
      assert keys[k] in keys;
    }
    assert Tally.NoDuplicates(pairs);
    SortNoDuplicates(pairs, CountOf);
  }

  /** Every captured name has an entry. */
  lemma AttributeCountsCover(names: seq<string>, a: string)
    requires a in names
    ensures var r := AttributeCounts(names); exists i :: 0 <= i < |r| && r[i].0 == a
  {
    var keys := Tally.Distinct(names);
    var pairs := Pairs(keys, names);
    var r := AttributeCounts(names);
    Tally.DistinctMembers(names, a);
    var k :| 0 <= k < |keys| && keys[k] == a;
    SortMembers(pairs, CountOf);
    assert pairs[k] in r;
  }

  /** The counts add up to the number of captured names. */
  lemma AttributeCountsTotal(names: seq<string>)
    ensures SumKeys(AttributeCounts(names), CountOf) == |names|
  {
    var keys := Tally.Distinct(names);
    var pairs := Pairs(keys, names);
    Tally.DistinctSame(names);
    SortSumKeys(pairs, CountOf);
    PairsSum(keys, names);
    Tally.SumCountsAll(keys, names);
  }

  /** Attributes with the same count keep the order they were first seen in. */
  lemma AttributeCountsTies(names: seq<string>, c: int)
    ensures WithKey(AttributeCounts(names), CountOf, c) == WithKey(Pairs(Tally.Distinct(names), names), CountOf, c)
  {
    SortStable(Pairs(Tally.Distinct(names), names), CountOf, c);
  }

  // ---------------------------------------------------------------- the reducer

  /** The counter dictionary's items, in key order. */
  function Counters(keys: seq<string>, counts: map<string, nat>): seq<(string, nat)>
    requires forall k :: k in keys ==> k in counts
  {
    seq(|keys|, i requires 0 <= i < |keys| => (keys[i], counts[keys[i]]))
  }

  /** Counters kept for `seen` list each key with its number of occurrences. */
  lemma CountersArePairs(seen: seq<string>, keys: seq<string>, counts: map<string, nat>)
    requires Tally.Counted(seen, keys, counts)
    ensures forall k :: k in keys ==> k in counts
    ensures Counters(keys, counts) == Pairs(keys, seen)
  {
  }

  /** The inner loop of the reducer: each name found in one filter adds one
      to its counter, a new name taking the next place in the key order. */
  method CountInto(attributes: seq<string>, keys: seq<string>, counts: map<string, nat>, ghost seen: seq<string>)
    returns (keys': seq<string>, counts': map<string, nat>)
    requires Tally.Counted(seen, keys, counts)
    ensures Tally.Counted(seen + attributes, keys', counts')
  {
    keys', counts' := keys, counts;
    assert seen + attributes[..0] == seen;
    for j := 0 to |attributes|
      invariant Tally.Counted(seen + attributes[..j], keys', counts')
    {
      var attribute := attributes[j];
      ghost var sofar := seen + attributes[..j];
      assert seen + attributes[..j + 1] == sofar + [attribute];
      if attribute in counts' {
        Tally.CountedSeen(sofar, attribute, keys', counts');
        counts' := counts'[attribute := counts'[attribute] + 1];
      } else {
        Tally.CountedNew(sofar, attribute, keys', counts');
        counts' := counts'[attribute := 1];
        keys' := keys' + [attribute];
      }
    }
    assert attributes[..|attributes|] == attributes;
  }

  method ExtractFilterAttributes(events: seq<Event>) returns (r: Result<seq<(string, nat)>, AggregateError>)
    ensures r.Success? <==> FiltersText(events)
    ensures r.Failure? ==>
      && r.error.FilterNotText?
      && var i := r.error.index;
         i < |events| && FilterKey in events[i].attrs && events[i].attrs[FilterKey].Multi? && FiltersText(events[..i])
    ensures r.Success? ==> r.value == AttributeCounts(FilterNames(events))
  {
    var keys: seq<string> := [];
    var counts: map<string, nat> := map[];
    ghost var seen: seq<string> := [];
    Tally.CountedEmpty<string>();
    var i := 0;
    while i < |events|
      invariant 0 <= i <= |events|
      invariant FiltersText(events[..i])
      invariant seen == FilterNames(events[..i])
      invariant Tally.Counted(seen, keys, counts)
    {
      var e := events[i];
      assert events[..i + 1] == events[..i] + [e];
      FilterNamesSnoc(events[..i], e);
      if FilterKey in e.attrs {
        var filter := e.attrs[FilterKey];
        if filter.Multi? {
          return Failure(FilterNotText(i));
        }
        var attributes := FilterAttributes(filter.text);
        keys, counts := CountInto(attributes, keys, counts, seen);
        seen := seen + attributes;
      }
      i := i + 1;
    }
    assert events[..i] == events;
    CountersArePairs(seen, keys, counts);
    return Success(SortDescending(Counters(keys, counts), CountOf));
  }
}
