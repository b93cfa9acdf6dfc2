/** `commits.sort(key=lambda x: x[1])` of visualizer.py: the selected
    (hash, author time) pairs put in ascending order of time. Python's sort is
    stable, so pairs with equal times keep the order in which the walk found
    them. The specification is an insertion of each pair, in turn, after every
    earlier pair whose time is not greater; the lemmas show that this order is
    ascending, stable and a permutation. */
module TimeOrder {
  type Stamped = (string, int)

  predicate Ascending(s: seq<Stamped>) {
    forall i, j :: 0 <= i < j < |s| ==> s[i].1 <= s[j].1
  }

  /** `x` placed after the last pair whose time is at most its own. */
  function Insert(s: seq<Stamped>, x: Stamped): (r: seq<Stamped>)
    ensures |r| == |s| + 1
  {
    if s == [] then [x]
    else if s[|s| - 1].1 <= x.1 then s + [x]
    else Insert(s[..|s| - 1], x) + [s[|s| - 1]]
  }

  /** The list after the stable sort by time. */
  function SortedByTime(s: seq<Stamped>): (r: seq<Stamped>)
    ensures |r| == |s|
  {
    if s == [] then [] else Insert(SortedByTime(s[..|s| - 1]), s[|s| - 1])
  }

  /** The pairs of `s` stamped with time `t`, in their order in `s`. */
  function WithTime(s: seq<Stamped>, t: int): seq<Stamped> {
    if s == [] then []
    else WithTime(s[..|s| - 1], t) + (if s[|s| - 1].1 == t then [s[|s| - 1]] else [])
  }

  lemma {:induction false} InsertAscending(s: seq<Stamped>, x: Stamped)
    requires Ascending(s)
    ensures Ascending(Insert(s, x))
    ensures Insert(s, x) != [] && (s == [] || Insert(s, x)[|s|].1 == (if s[|s| - 1].1 <= x.1 then x.1 else s[|s| - 1].1))
    decreases |s|
  {
    if s != [] && s[|s| - 1].1 > x.1 {
      var init := s[..|s| - 1];
      InsertAscending(init, x);
      var r := Insert(init, x);
      var last := s[|s| - 1];
      forall k | 0 <= k < |r| ensures r[k].1 <= last.1 {
        if init == [] {
        } else {
          assert r[|init|].1 <= last.1;
        }
      }
    }
  }

  lemma {:induction false} InsertMultiset(s: seq<Stamped>, x: Stamped)
    ensures multiset(Insert(s, x)) == multiset(s) + multiset{x}
    decreases |s|
  {
    if s != [] && s[|s| - 1].1 > x.1 {
      var init := s[..|s| - 1];
      InsertMultiset(init, x);
      assert s == init + [s[|s| - 1]];
    }
  }

  lemma WithTimeAppend(s: seq<Stamped>, x: Stamped, t: int)
    ensures WithTime(s + [x], t) == WithTime(s, t) + (if x.1 == t then [x] else [])
  {
    assert (s + [x])[..|s|] == s;
  }

  lemma {:induction false} InsertWithTime(s: seq<Stamped>, x: Stamped, t: int)
    ensures WithTime(Insert(s, x), t) == WithTime(s, t) + (if x.1 == t then [x] else [])
    decreases |s|
  {
    if s == [] {
      WithTimeAppend([], x, t);
    } else if s[|s| - 1].1 <= x.1 {
      WithTimeAppend(s, x, t);
    } else {
      var init := s[..|s| - 1];
      var last := s[|s| - 1];
      InsertWithTime(init, x, t);
      WithTimeAppend(Insert(init, x), last, t);
    }
  }

  /** The sorted list is in ascending order of time. */
  lemma {:induction false} SortedByTimeAscending(s: seq<Stamped>)
    ensures Ascending(SortedByTime(s))
    decreases |s|
  {
    if s != [] {
      SortedByTimeAscending(s[..|s| - 1]);
      InsertAscending(SortedByTime(s[..|s| - 1]), s[|s| - 1]);
    }
  }

  /** Sorting neither loses nor duplicates a pair. */
  lemma {:induction false} SortedByTimePermutation(s: seq<Stamped>)
    ensures multiset(SortedByTime(s)) == multiset(s)
    decreases |s|
  {
    if s != [] {
      var init := s[..|s| - 1];
      SortedByTimePermutation(init);
      InsertMultiset(SortedByTime(init), s[|s| - 1]);
      assert s == init + [s[|s| - 1]];
    }
  }

  /** Stability: the pairs sharing one time keep their original relative order. */
  lemma {:induction false} SortedByTimeStable(s: seq<Stamped>, t: int)
    ensures WithTime(SortedByTime(s), t) == WithTime(s, t)
    decreases |s|
  {
    if s != [] {
      var init := s[..|s| - 1];
      SortedByTimeStable(init, t);
      InsertWithTime(SortedByTime(init), s[|s| - 1], t);
    }
  }

  /** A list already in ascending order of time is left as it is; in
      particular sorting twice gives the same list as sorting once. */
  lemma {:induction false} SortedByTimeOfAscending(s: seq<Stamped>)
    requires Ascending(s)
    ensures SortedByTime(s) == s
    decreases |s|
  {
    if s != [] {
      var init := s[..|s| - 1];
      SortedByTimeOfAscending(init);
      assert s == init + [s[|s| - 1]];
    }
  }

  /** No hash is stamped twice. */
  predicate DistinctHashes(s: seq<Stamped>) {
    forall i, j :: 0 <= i < j < |s| ==> s[i].0 != s[j].0
  }

  lemma {:induction false} InsertDistinct(s: seq<Stamped>, x: Stamped)
    requires DistinctHashes(s) && forall k :: 0 <= k < |s| ==> s[k].0 != x.0
    ensures DistinctHashes(Insert(s, x))
    decreases |s|
  {
    if s != [] && s[|s| - 1].1 > x.1 {
      var init := s[..|s| - 1];
      var last := s[|s| - 1];
      InsertDistinct(init, x);
      InsertMultiset(init, x);
      var r := Insert(init, x);
      forall k | 0 <= k < |r| ensures r[k].0 != last.0 {
        assert r[k] in multiset(init) + multiset{x};
        if r[k] in multiset(init) {
          var m :| 0 <= m < |init| && init[m] == r[k];
          assert s[m] == init[m];
        }
      }
    }
  }

  /** Sorting stamps no hash twice that the list did not. */
  lemma {:induction false} SortedByTimeDistinct(s: seq<Stamped>)
    requires DistinctHashes(s)
    ensures DistinctHashes(SortedByTime(s))
    decreases |s|
  {
    if s != [] {
      var init := s[..|s| - 1];
      var last := s[|s| - 1];
      assert DistinctHashes(init);
      SortedByTimeDistinct(init);
      SortedByTimePermutation(init);
      var sorted := SortedByTime(init);
      forall k | 0 <= k < |sorted| ensures sorted[k].0 != last.0 {
        assert sorted[k] in multiset(init);
        var m :| 0 <= m < |init| && init[m] == sorted[k];
        assert s[m] == init[m];
      }
      InsertDistinct(sorted, last);
    }
  }

  /** In-place stable sort of the array by time. */
  method SortByTime(a: array<Stamped>)
    modifies a
    ensures a[..] == SortedByTime(old(a[..]))
  {
    var i := 0;
    while i < a.Length
      invariant 0 <= i <= a.Length
      invariant a[..i] == SortedByTime(old(a[..])[..i])
      invariant a[i..] == old(a[..])[i..]
    {
      assert old(a[..])[..i + 1][..i] == old(a[..])[..i];
      InsertLast(a, i);
      i := i + 1;
    }
    assert a[..] == a[..a.Length];
    assert old(a[..])[..a.Length] == old(a[..]);
  }

  /** One pass of the sort: `a[i]` moves left past every greater time. */
  method InsertLast(a: array<Stamped>, i: nat)
    requires i < a.Length
    modifies a
    ensures a[..i + 1] == Insert(old(a[..i]), old(a[i]))
    ensures a[i + 1..] == old(a[i + 1..])
  {
    ghost var sorted := a[..i];
    var x := a[i];
    var j := ShiftGreater(a, i, x);
    a[j] := x;
    assert a[..i + 1] == sorted[..j] + [x] + sorted[j..];
  }

  /** Shifts the pairs of `a[..i]` whose time exceeds that of `x` one place
      right and returns the gap left before them, where `x` belongs. */
  method ShiftGreater(a: array<Stamped>, i: nat, x: Stamped) returns (j: nat)
    requires i < a.Length
    modifies a
    ensures j <= i
    ensures forall k :: 0 <= k < j ==> a[k] == old(a[k])
    ensures forall k :: j < k <= i ==> a[k] == old(a[k - 1])
    ensures forall k :: i < k < a.Length ==> a[k] == old(a[k])
    ensures Insert(old(a[..i]), x) == old(a[..i])[..j] + [x] + old(a[..i])[j..]
  {
    ghost var sorted := a[..i];
    j := i;
    while j > 0 && a[j - 1].1 > x.1
      invariant 0 <= j <= i
      invariant forall k :: 0 <= k < j ==> a[k] == sorted[k]
      invariant forall k :: j < k <= i ==> a[k] == sorted[k - 1]
      invariant forall k :: i < k < a.Length ==> a[k] == old(a[k])
      invariant forall k :: j <= k < i ==> sorted[k].1 > x.1
    {
      a[j] := a[j - 1];
      j := j - 1;
    }
    InsertAt(sorted, j, x);
  }

  /** `x` lands right after the last pair whose time is at most its own. */
  lemma {:induction false} InsertAt(s: seq<Stamped>, j: nat, x: Stamped)
    requires j <= |s| && (j == 0 || s[j - 1].1 <= x.1)
    requires forall k :: j <= k < |s| ==> s[k].1 > x.1
    ensures Insert(s, x) == s[..j] + [x] + s[j..]
    decreases |s|
  {
    if j < |s| {
      var init := s[..|s| - 1];
      InsertAt(init, j, x);
      assert init[..j] == s[..j];
      assert s[j..] == init[j..] + [s[|s| - 1]];
    } else {
      assert s[..j] == s;
    }
  }
}
