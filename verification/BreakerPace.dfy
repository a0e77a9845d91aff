/** How fast executions can follow each other: the bound on allowed executions is reached. */
module BreakerPace {
  import opened Windows
  import opened BreakerHistory
  import opened BreakerBound

  /** An execution allowed at `at` that succeeds at once. */
  function Succeeding(h: History, at: int): History {
    h + [Allowed(at)] + [Recorded(at, false)]
  }

  /** `n` of them, a cooldown apart. */
  function Steady(c: int, n: nat): History {
    if n == 0 then [] else Succeeding(Steady(c, n - 1), Steps(c, n - 1))
  }

  ghost predicate SteadyAt(h: History, c: int, i: nat)
    requires i < |h|
  {
    (h[i] == Allowed(Steps(c, i / 2)) || h[i] == Recorded(Steps(c, i / 2), false)) && IsAllowed(h[i]) == (i % 2 == 0)
  }

  lemma {:induction false} SteadyMeans(c: int, n: nat)
    ensures |Steady(c, n)| == 2 * n && forall i :: 0 <= i < 2 * n ==> SteadyAt(Steady(c, n), c, i)
  {
    if n > 0 {
      SteadyMeans(c, n - 1);
      var h, g := Steady(c, n - 1), Steady(c, n);
      forall i | 0 <= i < 2 * n
        ensures SteadyAt(g, c, i)
      {
        assert i < 2 * (n - 1) ==> SteadyAt(h, c, i) && g[i] == h[i];
      }
    }
  }

  lemma {:induction false} StepsAre(c: int, j: nat)
    ensures Steps(c, j) == c * j
  {
    if j > 0 {
      StepsAre(c, j - 1);
      assert c * j == c * (j - 1) + c;
    }
  }

  lemma StepsGrow(c: int, i: nat, j: nat)
    requires 0 < c && i <= j
    ensures Steps(c, i) <= Steps(c, j)
  {
    StepsAdd(c, i, j - i);
    StepsAtLeast(c, j - i);
  }

  /** Without a failure or a crash only the cooldown counts. */
  lemma MayGoOn(st: Strategy, n: nat)
    requires st.Positive()
    ensures |Steady(st.cooldown, n)| == 2 * n && MayRun(st, Steady(st.cooldown, n), 2 * n, Steps(st.cooldown, n))
  {
    var h := Steady(st.cooldown, n);
    SteadyMeans(st.cooldown, n);
    forall i | 0 <= i < 2 * n
      ensures !IsTrip(st, h, i) && h[i].at + st.cooldown <= Steps(st.cooldown, n)
    {
      assert SteadyAt(h, st.cooldown, i);
      StepsGrow(st.cooldown, i / 2 + 1, n);
    }
  }

  lemma {:induction false} SteadyAllows(h: History, c: int, n: nat)
    requires 2 * n <= |h| && forall i :: 0 <= i < 2 * n ==> SteadyAt(h, c, i)
    ensures |TimesOf(h, 2 * n, IsAllowed)| == n && forall j :: 0 <= j < n ==> TimesOf(h, 2 * n, IsAllowed)[j] == Steps(c, j)
  {
    if n > 0 {
      SteadyAllows(h, c, n - 1);
      assert SteadyAt(h, c, 2 * (n - 1)) && SteadyAt(h, c, 2 * (n - 1) + 1);
      assert TimesOf(h, 2 * n - 1, IsAllowed) == TimesOf(h, 2 * (n - 1), IsAllowed) + [Steps(c, n - 1)];
      assert TimesOf(h, 2 * n, IsAllowed) == TimesOf(h, 2 * n - 1, IsAllowed);
    }
  }

  /** That many executions fit into the span, and all are allowed. */
  lemma SteadyFills(st: Strategy, span: int, n: nat)
    requires st.Positive() && 0 < span && n == (span + st.cooldown - 1) / st.cooldown
    ensures 0 < n && CountIn(AllowTimes(Steady(st.cooldown, n)), Steps(st.cooldown, n - 1) - span, Steps(st.cooldown, n - 1)) == n
  {
    var c := st.cooldown;
    assert c * n < span + c && 0 < n by {
      assert (span + c - 1) / c >= c / c;
    }
    StepsAre(c, n - 1);
    assert c * n == c * (n - 1) + c;
    SteadyMeans(c, n);
    SteadyAllows(Steady(c, n), c, n);
    var f := AllowTimes(Steady(c, n));
    forall j | 0 <= j < n
      ensures Steps(c, n - 1) - span < f[j] <= Steps(c, n - 1)
    {
      StepsGrow(c, 0, j);
      StepsGrow(c, j, n - 1);
    }
    CountAll(f, n, Steps(c, n - 1) - span, Steps(c, n - 1));
  }
}
