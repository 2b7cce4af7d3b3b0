/**
  `toSortedPairList` with `PairList`, and the threshold filter of
  `printAllCmd`: the count map is copied into an array of pairs, the array is
  sorted in place into non-increasing order of count, and the pairs whose
  count exceeds a threshold are reported in that order.
 */
module Ranking {

  /** One (command name, count) entry. */
  datatype Pair = Pair(Key: string, Value: int)

  /** `PairList.Less`: compares counts only, never names. */
  predicate Less(p: Pair, q: Pair)
  {
    p.Value < q.Value
  }

  /** Sorted under `sort.Reverse`: no pair is `Less` than a pair after it.
      Pairs with equal counts may come in any order. */
  ghost predicate SortedDescending(s: seq<Pair>)
  {
    forall i, j :: 0 <= i < j < |s| ==> !Less(s[i], s[j])
  }

  /** No two pairs of `s` carry the same name. */
  predicate DistinctKeys(s: seq<Pair>)
  {
    forall i, j :: 0 <= i < j < |s| ==> s[i].Key != s[j].Key
  }

  /** The entries of `counts` among the keys `keys`, as pairs. */
  ghost function EntriesOf(counts: map<string, int>, keys: set<string>): set<Pair>
  {
    set k | k in keys && k in counts :: Pair(k, counts[k])
  }

  /** Every (key, value) entry of `counts`, as a pair. */
  ghost function Entries(counts: map<string, int>): set<Pair>
  {
    EntriesOf(counts, counts.Keys)
  }

  /** `PairList.Swap`: exchanges two positions and touches nothing else. */
  method Swap(a: array<Pair>, i: nat, j: nat)
    requires i < a.Length && j < a.Length
    modifies a
    ensures a[i] == old(a[j]) && a[j] == old(a[i])
    ensures forall k :: 0 <= k < a.Length && k != i && k != j ==> a[k] == old(a[k])
    ensures multiset(a[..]) == old(multiset(a[..]))
  {
    a[i], a[j] := a[j], a[i];
  }

  /** A position in `a[lo..]` holding a largest count. */
  method IndexOfMax(a: array<Pair>, lo: nat) returns (m: nat)
    requires lo < a.Length
    ensures lo <= m < a.Length
    ensures forall j :: lo <= j < a.Length ==> !Less(a[m], a[j])
  {
    m := lo;
    var j := lo + 1;
    while j < a.Length
      invariant lo <= m < j <= a.Length
      invariant forall k :: lo <= k < j ==> !Less(a[m], a[k])
    {
      if Less(a[m], a[j]) {
        m := j;
      }
      j := j + 1;
    }
  }

  /** `sort.Sort(sort.Reverse(pl))`: rearranges `a` into non-increasing order
      of count. Only the result is modelled, by a selection sort. */
  method SortDescending(a: array<Pair>)
    modifies a
    ensures SortedDescending(a[..])
    ensures multiset(a[..]) == old(multiset(a[..]))
  {
    var n := a.Length;
    for i := 0 to n
      invariant multiset(a[..]) == old(multiset(a[..]))
      invariant forall p, q :: 0 <= p < q < i ==> !Less(a[p], a[q])
      invariant forall p, q :: 0 <= p < i <= q < n ==> !Less(a[p], a[q])
    {
      var m := IndexOfMax(a, i);
      Swap(a, i, m);
    }
  }

  /** Listing one more key adds exactly its pair, once, to the multiset of
      listed entries. */
  lemma EntriesOfAdd(counts: map<string, int>, keys: set<string>, k: string)
    requires k in counts && k !in keys
    ensures multiset(EntriesOf(counts, keys + {k})) ==
      multiset(EntriesOf(counts, keys)) + multiset{Pair(k, counts[k])}
  {
    var before := EntriesOf(counts, keys);
    var p := Pair(k, counts[k]);
    assert EntriesOf(counts, keys + {k}) == before + {p};
    assert p !in before;
  }

  /** A value at two positions of `s` occurs in `s` at least twice. */
  lemma RepeatedTwice(s: seq<Pair>, i: nat, j: nat)
    requires i < j < |s|
    ensures s[i] == s[j] ==> multiset(s)[s[i]] >= 2
  {
    assert s == s[..j] + [s[j]] + s[j + 1..];
    assert s[..j][i] == s[i];
  }

  /** A list with the multiset of a set has no value twice. */
  lemma NoRepeatsOfSet(s: seq<Pair>, entries: set<Pair>)
    requires multiset(s) == multiset(entries)
    ensures forall i, j :: 0 <= i < j < |s| ==> s[i] != s[j]
  {
    forall i, j | 0 <= i < j < |s|
      ensures s[i] != s[j]
    {
      RepeatedTwice(s, i, j);
      assert multiset(s)[s[i]] <= 1;
    }
  }

  /** The loop of `toSortedPairList` that copies the map into a new array by
      index, in the map's iteration order (any order). */
  method PairsOf(cmdsCount: map<string, int>) returns (pl: array<Pair>)
    ensures fresh(pl)
    ensures pl.Length == |cmdsCount|
    ensures multiset(pl[..]) == multiset(Entries(cmdsCount))
  {
    pl := new Pair[|cmdsCount|];
    var rest := cmdsCount.Keys;
    var i := 0;
    while rest != {}
      invariant rest <= cmdsCount.Keys
      invariant i + |rest| == pl.Length
      invariant multiset(pl[..i]) == multiset(EntriesOf(cmdsCount, cmdsCount.Keys - rest))
      decreases rest
    {
      var k :| k in rest;
      EntriesOfAdd(cmdsCount, cmdsCount.Keys - rest, k);
      assert (cmdsCount.Keys - rest) + {k} == cmdsCount.Keys - (rest - {k});
      pl[i] := Pair(k, cmdsCount[k]);
      assert pl[..i + 1] == pl[..i] + [pl[i]];
      i := i + 1;
      rest := rest - {k};
    }
    assert pl[..] == pl[..i];
  }

  /** `toSortedPairList`, returning the list as its caller in `main` expects:
      the map's entries are copied into an array and the array is sorted in
      place. The result holds each entry of the map exactly once and is in
      non-increasing order of count. */
  method ToSortedPairList(cmdsCount: map<string, int>) returns (pl: seq<Pair>)
    ensures multiset(pl) == multiset(Entries(cmdsCount))
    ensures |pl| == |cmdsCount|
    ensures forall k :: k in cmdsCount ==> Pair(k, cmdsCount[k]) in pl
    ensures forall p :: p in pl ==> p.Key in cmdsCount && cmdsCount[p.Key] == p.Value
    ensures SortedDescending(pl)
    ensures DistinctKeys(pl)
  {
    var a := PairsOf(cmdsCount);
    SortDescending(a);
    pl := a[..];
    assert forall p :: p in pl <==> p in multiset(pl);
    assert forall p :: p in Entries(cmdsCount) <==> p in multiset(Entries(cmdsCount));
    NoRepeatsOfSet(pl, Entries(cmdsCount));
    forall i, j | 0 <= i < j < |pl|
      ensures pl[i].Key != pl[j].Key
    {
      assert pl[i] in pl && pl[j] in pl;
    }
  }

  /** The pairs of `s` whose count exceeds `threshold`, in the order of `s`. */
  function AboveThreshold(s: seq<Pair>, threshold: int): (r: seq<Pair>)
    ensures |r| <= |s|
    decreases |s|
  {
    if s == [] then []
    else
      AboveThreshold(s[..|s| - 1], threshold) +
      (if s[|s| - 1].Value > threshold then [s[|s| - 1]] else [])
  }

  /** A pair is kept exactly when it is in the list and its count exceeds the
      threshold. */
  lemma {:induction false} AboveThresholdMembers(s: seq<Pair>, threshold: int, p: Pair)
    ensures p in AboveThreshold(s, threshold) <==> p in s && p.Value > threshold
    decreases |s|
  {
    if s != [] {
      var init := s[..|s| - 1];
      AboveThresholdMembers(init, threshold, p);
      assert s == init + [s[|s| - 1]];
    }
  }

  /** Filtering a concatenation filters each part, so relative order is
      kept. */
  lemma {:induction false} AboveThresholdAppend(s: seq<Pair>, t: seq<Pair>, threshold: int)
    ensures AboveThreshold(s + t, threshold) == AboveThreshold(s, threshold) + AboveThreshold(t, threshold)
    decreases |t|
  {
    if t == [] {
      assert s + t == s;
    } else {
      var t' := t[..|t| - 1];
      assert (s + t)[..|s + t| - 1] == s + t';
      AboveThresholdAppend(s, t', threshold);
    }
  }

  /** On a list sorted by non-increasing count, the filter keeps a prefix, and
      every pair after that prefix is at or below the threshold. */
  lemma {:induction false} AboveThresholdOfSorted(s: seq<Pair>, threshold: int)
    requires SortedDescending(s)
    ensures var r := AboveThreshold(s, threshold);
      r == s[..|r|] && forall i :: |r| <= i < |s| ==> s[i].Value <= threshold
    decreases |s|
  {
    if s != [] {
      var n := |s| - 1;
      var init := s[..n];
      assert SortedDescending(init);
      AboveThresholdOfSorted(init, threshold);
      var r' := AboveThreshold(init, threshold);
      if s[n].Value > threshold {
        assert |r'| == n;
        assert s == init + [s[n]];
      }
    }
  }

  /** Filtering a sorted list leaves it sorted. */
  lemma AboveThresholdSorted(s: seq<Pair>, threshold: int)
    requires SortedDescending(s)
    ensures SortedDescending(AboveThreshold(s, threshold))
  {
    AboveThresholdOfSorted(s, threshold);
  }

  /** Filtering a list in which no name repeats leaves no name repeated. */
  lemma {:induction false} AboveThresholdDistinct(s: seq<Pair>, threshold: int)
    requires DistinctKeys(s)
    ensures DistinctKeys(AboveThreshold(s, threshold))
    decreases |s|
  {
    if s != [] {
      var n := |s| - 1;
      var init := s[..n];
      assert DistinctKeys(init);
      AboveThresholdDistinct(init, threshold);
      var r' := AboveThreshold(init, threshold);
      if s[n].Value > threshold {
        var r := r' + [s[n]];
        forall i, j | 0 <= i < j < |r|
          ensures r[i].Key != r[j].Key
        {
          if j == |r'| {
            assert r[i] in r';
            AboveThresholdMembers(init, threshold, r[i]);
            var k :| 0 <= k < |init| && init[k] == r[i];
            assert s[k] == r[i];
          } else {
            assert r[i] == r'[i] && r[j] == r'[j];
          }
        }
      }
    }
  }

  /** The loop of `printAllCmd` (with the `threshold` parameter, which the
      source misspells): walks the sorted list and reports each pair whose
      count exceeds the threshold; the reported pairs are returned. */
  method PrintAllCmd(sortedCmdsCount: seq<Pair>, threshold: int) returns (shown: seq<Pair>)
    ensures shown == AboveThreshold(sortedCmdsCount, threshold)
    ensures forall p :: p in shown <==> p in sortedCmdsCount && p.Value > threshold
  {
    shown := [];
    for i := 0 to |sortedCmdsCount|
      invariant shown == AboveThreshold(sortedCmdsCount[..i], threshold)
    {
      assert sortedCmdsCount[..i + 1][..i] == sortedCmdsCount[..i];
      var p := sortedCmdsCount[i];
      if p.Value > threshold {
        shown := shown + [p];
      }
    }
    assert sortedCmdsCount[..|sortedCmdsCount|] == sortedCmdsCount;
    forall p {
      AboveThresholdMembers(sortedCmdsCount, threshold, p);
    }
  }
}
