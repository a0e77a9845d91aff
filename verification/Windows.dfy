/** Sliding windows of timestamps, shared by the circuit breaker and the rate limiter.
    A timestamp is an integer number of nanoseconds. */
module Windows {

  /** No earlier entry exceeds entry `j`. */
  ghost predicate TopAt(s: seq<int>, j: nat)
    requires j < |s|
  {
    forall i :: 0 <= i < j ==> s[i] <= s[j]
  }

  ghost predicate Sorted(s: seq<int>) {
    forall j :: 0 <= j < |s| ==> TopAt(s, j)
  }

  lemma SortedPair(s: seq<int>, i: nat, j: nat)
    requires Sorted(s) && i <= j < |s|
    ensures s[i] <= s[j]
  {
    assert TopAt(s, j);
  }

  lemma SortedAppend(s: seq<int>, t: int)
    requires Sorted(s) && forall i :: 0 <= i < |s| ==> s[i] <= t
    ensures Sorted(s + [t])
  {
    forall j | 0 <= j < |s + [t]|
      ensures TopAt(s + [t], j)
    {
      assert j < |s| ==> TopAt(s, j);
    }
  }

  /** Among the first `n` entries, those strictly newer than `cutoff`, in their order. */
  function AfterUpTo(s: seq<int>, n: nat, cutoff: int): seq<int>
    requires n <= |s|
  {
    if n == 0 then []
    else
      var rest := AfterUpTo(s, n - 1, cutoff);
      if s[n - 1] > cutoff then rest + [s[n - 1]] else rest
  }

  function After(s: seq<int>, cutoff: int): seq<int> {
    AfterUpTo(s, |s|, cutoff)
  }

  /** How many of the first `n` entries lie in the half-open interval (lo, hi]. */
  function CountUpTo(s: seq<int>, n: nat, lo: int, hi: int): nat
    requires n <= |s|
  {
    if n == 0 then 0
    else CountUpTo(s, n - 1, lo, hi) + if lo < s[n - 1] <= hi then 1 else 0
  }

  function CountIn(s: seq<int>, lo: int, hi: int): nat {
    CountUpTo(s, |s|, lo, hi)
  }

  /** `a` and `b` have the same entries after `from`, hence after any later cutoff. */
  predicate Agree(a: seq<int>, b: seq<int>, from: int) {
    After(a, from) == After(b, from)
  }

  /** No `b + 1` consecutive entries fall within less than `gap`. */
  ghost predicate Spaced(s: seq<int>, b: nat, gap: int) {
    forall i, j :: 0 <= i && i + b == j < |s| ==> s[j] - s[i] >= gap
  }

  lemma {:induction false} AfterUpToPrefix(s: seq<int>, t: seq<int>, n: nat, c: int)
    requires n <= |s| && n <= |t| && forall i :: 0 <= i < n ==> s[i] == t[i]
    ensures AfterUpTo(s, n, c) == AfterUpTo(t, n, c)
  {
    if n > 0 {
      AfterUpToPrefix(s, t, n - 1, c);
    }
  }

  lemma AfterAppend(s: seq<int>, t: int, c: int)
    ensures After(s + [t], c) == if t > c then After(s, c) + [t] else After(s, c)
  {
    AfterUpToPrefix(s + [t], s, |s|, c);
  }

  lemma {:induction false} AfterAfterUpTo(s: seq<int>, n: nat, c: int, d: int)
    requires n <= |s| && c <= d
    ensures After(AfterUpTo(s, n, c), d) == AfterUpTo(s, n, d)
  {
    if n > 0 {
      AfterAfterUpTo(s, n - 1, c, d);
      AfterAppend(AfterUpTo(s, n - 1, c), s[n - 1], d);
    }
  }

  lemma AfterAfter(s: seq<int>, c: int, d: int)
    requires c <= d
    ensures After(After(s, c), d) == After(s, d)
  {
    AfterAfterUpTo(s, |s|, c, d);
  }

  lemma {:induction false} AfterUpToSorted(s: seq<int>, n: nat, c: int)
    requires Sorted(s) && n <= |s|
    ensures Sorted(AfterUpTo(s, n, c)) && |AfterUpTo(s, n, c)| <= n
    ensures forall k :: 0 <= k < |AfterUpTo(s, n, c)| ==>
              c < AfterUpTo(s, n, c)[k] && exists i :: 0 <= i < n && s[i] == AfterUpTo(s, n, c)[k]
  {
    if n > 0 {
      AfterUpToSorted(s, n - 1, c);
      assert TopAt(s, n - 1);
      var rest := AfterUpTo(s, n - 1, c);
      forall k | 0 <= k < |rest|
        ensures rest[k] <= s[n - 1]
      {
        var i :| 0 <= i < n - 1 && s[i] == rest[k];
      }
      if s[n - 1] > c {
        SortedAppend(rest, s[n - 1]);
      }
    }
  }

  /** Filtering keeps the order, adds nothing, and leaves nothing at or before the cutoff. */
  lemma AfterSorted(s: seq<int>, c: int)
    requires Sorted(s)
    ensures Sorted(After(s, c)) && |After(s, c)| <= |s|
    ensures forall k :: 0 <= k < |After(s, c)| ==> c < After(s, c)[k] && After(s, c)[k] in s
  {
    AfterUpToSorted(s, |s|, c);
  }

  lemma {:induction false} AfterUpToNothing(s: seq<int>, n: nat, c: int)
    requires n <= |s| && forall i :: 0 <= i < n ==> s[i] <= c
    ensures AfterUpTo(s, n, c) == []
  {
    if n > 0 {
      AfterUpToNothing(s, n - 1, c);
    }
  }

  lemma AgreeLater(a: seq<int>, b: seq<int>, from: int, later: int)
    requires Agree(a, b, from) && from <= later
    ensures Agree(a, b, later)
  {
    AfterAfter(a, from, later);
    AfterAfter(b, from, later);
  }

  lemma AgreeAppend(a: seq<int>, b: seq<int>, t: int, from: int)
    requires Agree(a, b, from)
    ensures Agree(a + [t], b + [t], from)
  {
    AfterAppend(a, t, from);
    AfterAppend(b, t, from);
  }

  /** Purging at a cutoff no later question looks behind loses nothing. */
  lemma AgreePurge(a: seq<int>, b: seq<int>, cutoff: int, from: int)
    requires Agree(a, b, from) && from <= cutoff
    ensures Agree(After(a, cutoff), b, cutoff)
  {
    AfterAfter(a, cutoff, cutoff);
    AgreeLater(a, b, from, cutoff);
  }

  lemma {:induction false} CountUpToIsAfter(s: seq<int>, n: nat, lo: int, hi: int)
    requires n <= |s| && forall i :: 0 <= i < n ==> s[i] <= hi
    ensures CountUpTo(s, n, lo, hi) == |AfterUpTo(s, n, lo)|
  {
    if n > 0 {
      CountUpToIsAfter(s, n - 1, lo, hi);
    }
  }

  lemma CountIsAfter(s: seq<int>, lo: int, hi: int)
    requires forall i :: 0 <= i < |s| ==> s[i] <= hi
    ensures CountIn(s, lo, hi) == |After(s, lo)|
  {
    CountUpToIsAfter(s, |s|, lo, hi);
  }

  lemma {:induction false} CountOfTail(s: seq<int>, n: nat, k: nat, lo: int, hi: int)
    requires k <= n <= |s|
    requires forall i :: 0 <= i < k ==> s[i] <= lo
    ensures CountUpTo(s, n, lo, hi) <= n - k
  {
    if n > 0 {
      CountOfTail(s, n - 1, if k == n then k - 1 else k, lo, hi);
    }
  }

  lemma {:induction false} SpacedBoundsCountUpTo(s: seq<int>, n: nat, b: nat, gap: int, x: int)
    requires Sorted(s) && Spaced(s, b, gap) && n <= |s|
    ensures CountUpTo(s, n, x - gap, x) <= b
  {
    if n > 0 {
      if s[n - 1] > x {
        SpacedBoundsCountUpTo(s, n - 1, b, gap, x);
      } else if b < n {
        assert s[n - 1] - s[n - 1 - b] >= gap && TopAt(s, n - 1 - b);
        CountOfTail(s, n, n - b, x - gap, x);
      } else {
        CountOfTail(s, n, 0, x - gap, x);
      }
    }
  }

  /** Spacing bounds the number of entries in every interval of that length. */
  lemma SpacedBoundsCount(s: seq<int>, b: nat, gap: int, x: int)
    requires Sorted(s) && Spaced(s, b, gap)
    ensures CountIn(s, x - gap, x) <= b
  {
    SpacedBoundsCountUpTo(s, |s|, b, gap, x);
  }

  lemma SpacedAppend(s: seq<int>, t: int, b: nat, gap: int)
    requires Spaced(s, b, gap) && 0 < b
    requires b <= |s| ==> t - s[|s| - b] >= gap
    ensures Spaced(s + [t], b, gap)
  {
  }

  /** The `out := window[:0]` idiom: the survivors overwrite the front of the very
      buffer that is being read, and the result is the buffer cut to their number. */
  method CompactInPlace(window: seq<int>, cutoff: int) returns (out: seq<int>)
    ensures out == After(window, cutoff)
  {
    var buf, k := window, 0;
    for i := 0 to |window|
      invariant k <= i && |buf| == |window|
      invariant buf[..k] == AfterUpTo(window, i, cutoff)
      invariant buf[i..] == window[i..]
    {
      var t := buf[i];
      assert t == window[i];
      if t > cutoff {
        buf := buf[k := t];
        k := k + 1;
      }
    }
    out := buf[..k];
  }
}
