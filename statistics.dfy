/** The reduction of a sample set to one representative duration:
    Python's statistics.median on an odd number of samples, which sorts a
    copy of the samples and takes the middle one. */
module Statistics {

  predicate Sorted(s: seq<int>) {
    forall i, j :: 0 <= i < j < |s| ==> s[i] <= s[j]
  }

  /** How many samples are at most `m`. */
  function CountAtMost(s: seq<int>, m: int): (n: nat)
    ensures n <= |s|
  {
    if s == [] then 0 else (if s[0] <= m then 1 else 0) + CountAtMost(s[1..], m)
  }

  /** How many samples are at least `m`. */
  function CountAtLeast(s: seq<int>, m: int): (n: nat)
    ensures n <= |s|
  {
    if s == [] then 0 else (if s[0] >= m then 1 else 0) + CountAtLeast(s[1..], m)
  }

  /** Put `x` into a sorted sequence in front of the first element not below it. */
  function Insert(x: int, s: seq<int>): (r: seq<int>)
    requires Sorted(s)
    ensures Sorted(r)
    ensures multiset(r) == multiset(s) + multiset{x}
    ensures |r| == |s| + 1 && (r[0] == x || (s != [] && r[0] == s[0]))
  {
    if s == [] || x <= s[0] then [x] + s
    else
      var rest := Insert(x, s[1..]);
      var r := [s[0]] + rest;
      assert s == [s[0]] + s[1..];
      assert s[0] <= rest[0];
      assert forall k :: 0 < k < |r| ==> r[k] == rest[k - 1];
      r
  }

  /** Python's sorted(): an ascending permutation of the samples. */
  function SortedCopy(s: seq<int>): (r: seq<int>)
    ensures Sorted(r)
    ensures multiset(r) == multiset(s)
  {
    if s == [] then []
    else
      assert s == [s[0]] + s[1..];
      Insert(s[0], SortedCopy(s[1..]))
  }

  lemma {:induction false} InsertCounts(x: int, s: seq<int>, m: int)
    requires Sorted(s)
    ensures CountAtMost(Insert(x, s), m) == CountAtMost(s, m) + (if x <= m then 1 else 0)
    ensures CountAtLeast(Insert(x, s), m) == CountAtLeast(s, m) + (if x >= m then 1 else 0)
  {
    var r := Insert(x, s);
    if s == [] || x <= s[0] {
      assert r[1..] == s;
    } else {
      InsertCounts(x, s[1..], m);
      assert r[1..] == Insert(x, s[1..]);
    }
  }

  /** Sorting does not change how many samples lie on either side of a value. */
  lemma {:induction false} SortedCopyCounts(s: seq<int>, m: int)
    ensures CountAtMost(SortedCopy(s), m) == CountAtMost(s, m)
    ensures CountAtLeast(SortedCopy(s), m) == CountAtLeast(s, m)
  {
    if s != [] {
      SortedCopyCounts(s[1..], m);
      InsertCounts(s[0], SortedCopy(s[1..]), m);
    }
  }

  /** In a sorted sequence the element at index i has at least i + 1
      elements at most it and at least |t| - i elements at least it. */
  lemma {:induction false} SortedRankCounts(t: seq<int>, i: nat)
    requires Sorted(t) && i < |t|
    ensures CountAtMost(t, t[i]) >= i + 1
    ensures CountAtLeast(t, t[i]) >= |t| - i
  {
    if i == 0 {
      AllAtLeastFirst(t);
    } else {
      SortedRankCounts(t[1..], i - 1);
    }
  }

  lemma {:induction false} AllAtLeastFirst(t: seq<int>)
    requires Sorted(t) && |t| > 0
    ensures CountAtLeast(t, t[0]) == |t|
  {
    if |t| > 1 {
      AllAtLeastFirst(t[1..]);
      assert CountAtLeast(t[1..], t[1]) == CountAtLeast(t[1..], t[0]) by {
        AtLeastBelowAll(t[1..], t[0]);
        AllAtLeastFirst(t[1..]);
      }
    }
  }

  lemma {:induction false} AtLeastBelowAll(t: seq<int>, m: int)
    requires forall k :: 0 <= k < |t| ==> m <= t[k]
    ensures CountAtLeast(t, m) == |t|
  {
    if t != [] {
      AtLeastBelowAll(t[1..], m);
    }
  }

  /** The median of an odd number of samples: the middle element of the
      sorted samples. It is one of the samples, and at least half of the
      samples plus one lie on each side of it (with |samples| == 5: at least
      three samples are at most it and at least three are at least it). */
  function Median(samples: seq<int>): (m: int)
    requires |samples| % 2 == 1
    ensures m in samples
    ensures CountAtMost(samples, m) >= |samples| / 2 + 1
    ensures CountAtLeast(samples, m) >= |samples| / 2 + 1
  {
    var t := SortedCopy(samples);
    var mid := |samples| / 2;
    assert |t| == |samples| by {
      assert |multiset(t)| == |multiset(samples)|;
    }
    SortedRankCounts(t, mid);
    SortedCopyCounts(samples, t[mid]);
    assert t[mid] in multiset(samples) by {
      assert t[mid] in multiset(t);
    }
    t[mid]
  }

  /** The odd-length median is determined by its order-statistic contract:
      a sample with at least half plus one of the samples on each side. */
  lemma MedianIsOrderStatistic(samples: seq<int>, m: int)
    requires |samples| % 2 == 1
    requires m in samples
    requires CountAtMost(samples, m) >= |samples| / 2 + 1
    requires CountAtLeast(samples, m) >= |samples| / 2 + 1
    ensures m == Median(samples)
  {
    var med := Median(samples);
    if m < med {
      CountSplit(samples, m, med);
    } else if med < m {
      CountSplit(samples, med, m);
    }
  }

  /** Nothing is both at most `a` and at least `b` when a < b. */
  lemma {:induction false} CountSplit(s: seq<int>, a: int, b: int)
    requires a < b
    ensures CountAtMost(s, a) + CountAtLeast(s, b) <= |s|
  {
    if s != [] {
      CountSplit(s[1..], a, b);
    }
  }

  /** The worked example: the samples 5, 1, 9, 3, 7 reduce to 5. */
  lemma MedianExample()
    ensures Median([5, 1, 9, 3, 7]) == 5
  {
    var s := [5, 1, 9, 3, 7];
    assert s[1..] == [1, 9, 3, 7] && s[2..] == [9, 3, 7] && s[3..] == [3, 7] && s[4..] == [7];
    assert CountAtMost(s, 5) == 3;
    assert CountAtLeast(s, 5) == 3;
    MedianIsOrderStatistic(s, 5);
  }
}
