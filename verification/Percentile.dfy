/** Nearest-rank percentiles over latencies, sorted in place. */
module Percentile {
  import Permutations
  import Windows

  /** The first `n` entries are in order. */
  ghost predicate Rises(s: seq<int>, n: nat)
    requires n <= |s|
  {
    forall j :: 0 <= j < n ==> Windows.TopAt(s, j)
  }

  ghost predicate SortedPermutation(r: seq<int>, s: seq<int>) {
    multiset(r) == multiset(s) && Windows.Sorted(r)
  }

  function CountAtMost(s: seq<int>, n: nat, x: int): nat
    requires n <= |s|
  {
    if n == 0 then 0 else CountAtMost(s, n - 1, x) + if s[n - 1] <= x then 1 else 0
  }

  function CountAtLeast(s: seq<int>, n: nat, x: int): nat
    requires n <= |s|
  {
    if n == 0 then 0 else CountAtLeast(s, n - 1, x) + if s[n - 1] >= x then 1 else 0
  }

  /** The rank of the p-quantile among n values, clamped into the list. */
  function Rank(n: nat, p: real): (r: nat)
    requires 0 < n
    ensures r < n
  {
    var rank := (n as real * p).Floor;
    if rank >= n then n - 1 else if rank < 0 then 0 else rank
  }

  // ----- Insertion sort in place

  /** Entry `k` came from one place below, and exceeds `v`. */
  ghost predicate Shifted(t: seq<int>, s: seq<int>, k: nat, v: int)
    requires 0 < k < |t| == |s|
  {
    t[k] == s[k - 1] && s[k - 1] > v
  }

  /** The inner loop: shift up what exceeds `v` among the entries before `i`. */
  method MakeRoom(a: array<int>, i: nat, v: int) returns (at: nat)
    requires 0 < i < a.Length
    modifies a
    ensures at <= i && (at > 0 ==> old(a[at - 1]) <= v)
    ensures forall k :: 0 <= k < at || i < k < a.Length ==> a[k] == old(a[k])
    ensures forall k :: at < k <= i ==> Shifted(a[..], old(a[..]), k, v)
  {
    var j := i - 1;
    ghost var was := a[..];
    while j >= 0 && a[j] > v
      invariant -1 <= j < i
      invariant forall k :: 0 <= k <= j ==> a[k] == was[k]
      invariant forall k :: j + 1 < k <= i ==> Shifted(a[..], was, k, v)
      invariant forall k :: i < k < a.Length ==> a[k] == was[k]
    {
      ghost var before := a[..];
      a[j + 1] := a[j];
      forall k | j < k <= i
        ensures Shifted(a[..], was, k, v)
      {
        assert k > j + 1 ==> Shifted(before, was, k, v);
      }
      j := j - 1;
    }
    at := j + 1;
  }

  /** Insert entry `i` into the sorted part before it. */
  method Insert(a: array<int>, i: nat)
    requires 0 < i < a.Length && Rises(a[..], i)
    modifies a
    ensures Rises(a[..], i + 1)
    ensures multiset(a[..]) == multiset(old(a[..]))
  {
    ghost var was := a[..];
    var v := a[i];
    var at := MakeRoom(a, i, v);
    ghost var roomy := a[..];
    a[at] := v;
    forall k | at < k <= i
      ensures Shifted(a[..], was, k, v)
    {
      assert Shifted(roomy, was, k, v);
    }
    InsertedPermutes(was, a[..], at, i);
    InsertedRises(was, a[..], at, i);
  }

  /** Below the place of the moved entry nothing exceeds it, above it everything does. */
  lemma InsertedRises(s: seq<int>, t: seq<int>, k: nat, i: nat)
    requires k <= i < |s| == |t| && t[k] == s[i] && Rises(s, i)
    requires forall x :: 0 <= x < k ==> t[x] == s[x]
    requires forall x :: k < x <= i ==> Shifted(t, s, x, s[i])
    requires k > 0 ==> s[k - 1] <= s[i]
    ensures Rises(t, i + 1)
  {
    forall j | 0 <= j <= i
      ensures Windows.TopAt(t, j)
    {
      if j < k {
        assert Windows.TopAt(s, j);
      } else if j == k {
        assert k > 0 ==> Windows.TopAt(s, k - 1);
      } else {
        assert Windows.TopAt(s, j - 1);
        forall x | 0 <= x < j
          ensures t[x] <= t[j]
        {
          assert Shifted(t, s, j, s[i]) && (x > k ==> Shifted(t, s, x, s[i]));
        }
      }
    }
  }

  /** Moving entry `i` to position `k`, shifting what was between, is a permutation. */
  lemma InsertedPermutes(s: seq<int>, t: seq<int>, k: nat, i: nat)
    requires k <= i < |s| == |t| && t[k] == s[i]
    requires forall x :: 0 <= x < k || i < x < |s| ==> t[x] == s[x]
    requires forall x :: k < x <= i ==> Shifted(t, s, x, s[i])
    ensures multiset(t) == multiset(s)
  {
    forall x | 0 <= x < |s| - 1
      ensures Permutations.Without(t, k)[x] == Permutations.Without(s, i)[x]
    {
      assert k <= x < i ==> Shifted(t, s, x + 1, s[i]);
    }
    assert Permutations.Without(t, k) == Permutations.Without(s, i);
  }

  method SortInPlace(a: array<int>)
    modifies a
    ensures SortedPermutation(a[..], old(a[..]))
  {
    var i := 1;
    while i < a.Length
      invariant 1 <= i && (i <= a.Length || a.Length == 0)
      invariant Rises(a[..], if i <= a.Length then i else 0)
      invariant multiset(a[..]) == multiset(old(a[..]))
    {
      Insert(a, i);
      i := i + 1;
    }
  }

  // ----- What the percentile means

  lemma {:induction false} CountsOfSorted(r: seq<int>, n: nat, k: nat)
    requires k < |r| && n <= |r| && Windows.Sorted(r)
    ensures CountAtMost(r, n, r[k]) >= if n <= k then n else k + 1
    ensures CountAtLeast(r, n, r[k]) >= if n <= k then 0 else n - k
  {
    if n > 0 {
      CountsOfSorted(r, n - 1, k);
      assert Windows.TopAt(r, k) && Windows.TopAt(r, n - 1);
    }
  }

  /** Counts depend only on the multiset. */
  lemma {:induction false} CountsPermute(r: seq<int>, s: seq<int>, x: int)
    requires multiset(r) == multiset(s)
    ensures |r| == |s|
    ensures CountAtMost(r, |r|, x) == CountAtMost(s, |s|, x) && CountAtLeast(r, |r|, x) == CountAtLeast(s, |s|, x)
    decreases |r|
  {
    Permutations.SameLength(r, s);
    if |r| > 0 {
      var m := |r| - 1;
      var j := Permutations.Partner(r, s);
      Picked(r, m, m, x);
      Picked(s, j, m, x);
      CountsPermute(Permutations.Without(r, m), Permutations.Without(s, j), x);
    }
  }

  lemma {:induction false} CountsPrefix(s: seq<int>, t: seq<int>, n: nat, x: int)
    requires n <= |s| && n <= |t| && forall i :: 0 <= i < n ==> s[i] == t[i]
    ensures CountAtMost(s, n, x) == CountAtMost(t, n, x) && CountAtLeast(s, n, x) == CountAtLeast(t, n, x)
  {
    if n > 0 {
      CountsPrefix(s, t, n - 1, x);
    }
  }

  lemma {:induction false} Picked(s: seq<int>, j: nat, n: nat, x: int)
    requires j <= n < |s|
    ensures CountAtMost(s, n + 1, x) == CountAtMost(Permutations.Without(s, j), n, x) + if s[j] <= x then 1 else 0
    ensures CountAtLeast(s, n + 1, x) == CountAtLeast(Permutations.Without(s, j), n, x) + if s[j] >= x then 1 else 0
  {
    if n == j {
      CountsPrefix(s, Permutations.Without(s, j), j, x);
    } else {
      Picked(s, j, n - 1, x);
    }
  }

  /** A list has one sorted permutation. */
  lemma {:induction false} SortedIsUnique(r: seq<int>, s: seq<int>, k: nat)
    requires multiset(r) == multiset(s) && Windows.Sorted(r) && Windows.Sorted(s)
    requires k < |r|
    ensures |r| == |s| && r[k] == s[k]
  {
    CountsPermute(r, s, r[k]);
    CountsOfSorted(r, |r|, k);
    CountsPermute(r, s, s[k]);
    CountsOfSorted(s, |s|, k);
    if r[k] < s[k] {
      FewBelow(s, |s|, k, r[k]);
      assert false;
    } else if s[k] < r[k] {
      FewBelow(r, |r|, k, s[k]);
      assert false;
    }
  }

  /** In a sorted list at most k entries are at most x if entry k exceeds x. */
  lemma {:induction false} FewBelow(s: seq<int>, n: nat, k: nat, x: int)
    requires k < |s| && n <= |s| && Windows.Sorted(s) && x < s[k]
    ensures CountAtMost(s, n, x) <= if n <= k then n else k
  {
    if n > 0 {
      FewBelow(s, n - 1, k, x);
      assert Windows.TopAt(s, n - 1);
    }
  }

  /** No more values than `share` are below `r`, and more than `share` are at most `r`. */
  ghost predicate Splits(r: int, s: seq<int>, share: real) {
    (|s| - CountAtLeast(s, |s|, r)) as real <= share < CountAtMost(s, |s|, r) as real
  }

  /** The p-quantile of the values of `s`: at most the fraction `p` of them is below it, and more
      than that fraction is at most it. From 1 on it is the largest, below 0 the smallest. */
  ghost predicate IsPercentile(r: int, s: seq<int>, p: real) {
    if s == [] then r == 0
    else
      r in s &&
      if 1.0 <= p then forall x :: x in s ==> x <= r
      else if p < 0.0 then forall x :: x in s ==> r <= x
      else Splits(r, s, |s| as real * p)
  }

  lemma {:induction false} AllCounted(s: seq<int>, n: nat, x: int)
    requires n <= |s|
    ensures CountAtMost(s, n, x) <= n && (CountAtMost(s, n, x) == n ==> forall i :: 0 <= i < n ==> s[i] <= x)
    ensures CountAtLeast(s, n, x) <= n && (CountAtLeast(s, n, x) == n ==> forall i :: 0 <= i < n ==> x <= s[i])
  {
    if n > 0 {
      AllCounted(s, n - 1, x);
    }
  }

  lemma RankShare(n: nat, p: real)
    requires 0 < n
    ensures if 1.0 <= p then Rank(n, p) == n - 1 else if p < 0.0 then Rank(n, p) == 0
            else Rank(n, p) as real <= n as real * p < Rank(n, p) as real + 1.0
  {
    var m := n as real;
    if 1.0 <= p {
      assert m * (p - 1.0) >= 0.0;
      assert m * p == m * (p - 1.0) + m;
    } else if p < 0.0 {
      assert m * p < 0.0;
    } else {
      assert m * (1.0 - p) > 0.0;
      assert m * p == m - m * (1.0 - p);
      assert m * p >= 0.0;
    }
  }

  /** The value of the clamped rank is the quantile. */
  lemma RankIsPercentile(r: int, s: seq<int>, p: real)
    requires s != [] && r in s
    requires CountAtMost(s, |s|, r) >= Rank(|s|, p) + 1 && CountAtLeast(s, |s|, r) >= |s| - Rank(|s|, p)
    ensures IsPercentile(r, s, p)
  {
    RankShare(|s|, p);
    AllCounted(s, |s|, r);
  }

  /** Sort, and pick the value of that rank. */
  method OrderStatistic(values: array<int>, rank: nat) returns (r: int)
    requires rank < values.Length
    modifies values
    ensures SortedPermutation(values[..], old(values[..])) && r == values[rank]
    ensures var s := old(values[..]);
            CountAtMost(s, |s|, r) >= rank + 1 && CountAtLeast(s, |s|, r) >= |s| - rank && r in s
  {
    SortInPlace(values);
    r := values[rank];
    CountsPermute(values[..], old(values[..]), r);
    CountsOfSorted(values[..], values.Length, rank);
    assert r in multiset(values[..]);
    assert r in multiset(old(values[..]));
  }

  method ClampedRank(n: nat, p: real) returns (rank: int)
    requires 0 < n
    ensures rank == Rank(n, p)
  {
    rank := (n as real * p).Floor;
    if rank >= n {
      rank := n - 1;
    }
    if rank < 0 {
      rank := 0;
    }
  }

  method Percentile(values: array<int>, p: real) returns (r: int)
    modifies values
    ensures SortedPermutation(values[..], old(values[..]))
    ensures values.Length > 0 ==> r == values[Rank(values.Length, p)]
    ensures IsPercentile(r, old(values[..]), p)
  {
    var n := values.Length;
    if n == 0 {
      return 0;
    }
    var rank := ClampedRank(n, p);
    r := OrderStatistic(values, rank);
    RankIsPercentile(r, old(values[..]), p);
  }

  /** The quantile is unique: whatever meets its description is the answer on every arrangement
      of the same values. */
  lemma PercentileIsUnique(s: seq<int>, t: seq<int>, p: real, a: int, b: int)
    requires multiset(s) == multiset(t) && IsPercentile(a, s, p) && IsPercentile(b, t, p)
    ensures a == b
  {
    PercentilePermutes(s, t, p, a);
    if t != [] && 0.0 <= p < 1.0 {
      SplitIsUnique(t, a, b, |t| as real * p);
    }
  }

  lemma PercentilePermutes(s: seq<int>, t: seq<int>, p: real, a: int)
    requires multiset(s) == multiset(t) && IsPercentile(a, s, p)
    ensures IsPercentile(a, t, p)
  {
    Permutations.SameLength(s, t);
    forall x
      ensures x in s <==> x in t
    {
      SameMembers(s, t, x);
    }
    if s != [] && 0.0 <= p < 1.0 {
      SplitPermutes(s, t, a, |s| as real * p, |t| as real * p);
    }
  }

  lemma SplitPermutes(s: seq<int>, t: seq<int>, a: int, share: real, same: real)
    requires multiset(s) == multiset(t) && share == same && Splits(a, s, share)
    ensures Splits(a, t, same)
  {
    CountsPermute(s, t, a);
  }

  lemma SplitIsUnique(s: seq<int>, a: int, b: int, share: real)
    requires Splits(a, s, share) && Splits(b, s, share)
    ensures a == b
  {
    if a < b {
      AtMostOrAtLeast(s, |s|, a, b);
    } else if b < a {
      AtMostOrAtLeast(s, |s|, b, a);
    }
  }

  lemma SameMembers(s: seq<int>, t: seq<int>, x: int)
    requires multiset(s) == multiset(t)
    ensures |s| == |t| && (x in s <==> x in t)
  {
    Permutations.SameLength(s, t);
    assert x in s <==> x in multiset(s);
    assert x in t <==> x in multiset(t);
  }

  lemma {:induction false} AtMostOrAtLeast(s: seq<int>, n: nat, a: int, b: int)
    requires n <= |s| && a < b
    ensures CountAtMost(s, n, a) + CountAtLeast(s, n, b) <= n
  {
    if n > 0 {
      AtMostOrAtLeast(s, n - 1, a, b);
    }
  }

  lemma RankGrows(n: nat, p: real, q: real)
    requires 0 < n && p <= q
    ensures Rank(n, p) <= Rank(n, q)
  {
    var m := n as real;
    assert m * (q - p) >= 0.0;
    assert m * q == m * p + m * (q - p);
  }

  /** At most `num` hundredths of the values are below `r`, and more are at most `r`. */
  ghost predicate IsHundredths(r: int, s: seq<int>, num: int) {
    r in s && 100 * (|s| - CountAtLeast(s, |s|, r)) <= num * |s| < 100 * CountAtMost(s, |s|, r)
  }

  lemma HundredthsMean(r: int, s: seq<int>)
    requires s != []
    ensures IsPercentile(r, s, 0.5) ==> IsHundredths(r, s, 50)
    ensures IsPercentile(r, s, 0.95) ==> IsHundredths(r, s, 95)
  {
  }

  /** A URL's summary asks for both percentiles of one slice, the second time already
      sorted: both are the percentiles of the samples as they came, and p50 <= p95. */
  method SummaryPercentiles(latencies: array<int>) returns (p50: int, p95: int)
    modifies latencies
    ensures latencies.Length == 0 ==> p50 == p95 == 0
    ensures latencies.Length > 0 ==> IsHundredths(p50, old(latencies[..]), 50) && IsHundredths(p95, old(latencies[..]), 95)
    ensures p50 <= p95
  {
    ghost var was := latencies[..];
    p50 := Percentile(latencies, 0.5);
    ghost var mid := latencies[..];
    p95 := Percentile(latencies, 0.95);
    if latencies.Length > 0 {
      CountsPermute(mid, was, p95);
      SameMembers(mid, was, p95);
      HundredthsMean(p50, was);
      HundredthsMean(p95, was);
      RankGrows(latencies.Length, 0.5, 0.95);
      SortedIsUnique(mid, latencies[..], Rank(latencies.Length, 0.5));
      Windows.SortedPair(latencies[..], Rank(latencies.Length, 0.5), Rank(latencies.Length, 0.95));
    }
  }
}
