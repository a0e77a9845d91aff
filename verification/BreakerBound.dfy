/** How many failing executions fit into an interval: the exact answer. The times at which
    executions fail are characterised first, without any log: two are a cooldown apart, and
    after a trip the next one waits for the open time. */
module BreakerBound {
  import opened Windows
  import opened BreakerHistory

  ghost predicate Paced(st: Strategy, f: seq<int>) {
    Spaced(f, 1, st.cooldown) && forall j :: 0 <= j < |f| - 1 ==> WaitsAfterTrip(st, f, j)
  }

  ghost predicate WaitsAfterTrip(st: Strategy, f: seq<int>, j: nat)
    requires j < |f| - 1
  {
    Trips(st, f, j) ==> f[j + 1] - f[j] >= st.openFor
  }

  ghost predicate Reachable(st: Strategy, h: History) {
    Ordered(h) && Decided(st, h) && AgentShaped(h)
  }

  /** An execution allowed at `at` that fails at once. */
  function Failing(h: History, at: int): History {
    h + [Allowed(at)] + [Recorded(at, true)]
  }

  lemma FailingReachable(st: Strategy, h: History, at: int)
    requires Reachable(st, h) && MayRun(st, h, |h|, at) && forall i :: 0 <= i < |h| ==> h[i].at <= at
    ensures Reachable(st, Failing(h, at))
  {
    var m := h + [Allowed(at)];
    OrderedAppend(h, Allowed(at));
    OrderedAppend(m, Recorded(at, true));
    DecidedAppend(st, h, Allowed(at));
    DecidedAppend(st, m, Recorded(at, true));
  }

  lemma FailingTimes(h: History, at: int)
    ensures FailTimes(Failing(h, at)) == FailTimes(h) + [at]
    ensures TimesOf(Failing(h, at), |h|, IsFailure) == FailTimes(h)
  {
    var g := Failing(h, at);
    TimesOfPrefix(h, g, |h|, IsFailure);
    assert g[|h|] == Allowed(at) && g[|h| + 1] == Recorded(at, true);
    assert TimesOf(g, |h| + 1, IsFailure) == FailTimes(h);
  }

  lemma FailingExtends(st: Strategy, h: History, at: int)
    requires Reachable(st, h) && MayRun(st, h, |h|, at) && forall i :: 0 <= i < |h| ==> h[i].at <= at
    ensures var g := Failing(h, at);
            Reachable(st, g) && FailTimes(g) == FailTimes(h) + [at] && |g| == |h| + 2 &&
            (forall i :: 0 <= i < |h| ==> g[i] == h[i] && IsTrip(st, g, i) == IsTrip(st, h, i)) &&
            (IsTrip(st, g, |h| + 1) <==> Trips(st, FailTimes(h) + [at], |FailTimes(h)|))
  {
    FailingReachable(st, h, at);
    FailingTimes(h, at);
    TripPrefix(st, h, Failing(h, at), |h|);
  }

  // ----- The failures of every reachable log are paced

  lemma {:induction false} TimesGrow(h: History, m: nat, n: nat, p: Event -> bool)
    requires m <= n <= |h|
    ensures |TimesOf(h, m, p)| <= |TimesOf(h, n, p)|
  {
    if m < n {
      TimesGrow(h, m, n - 1, p);
    }
  }

  lemma NextFailureApart(st: Strategy, h: History, n: nat)
    requires Reachable(st, h) && n < |h| && IsFailure(h[n])
    ensures var rest := TimesOf(h, n, IsFailure); rest != [] ==> h[n].at - rest[|rest| - 1] >= st.cooldown
  {
    if TimesOf(h, n, IsFailure) != [] {
      var i := LastSelected(h, n, IsFailure);
      assert h[n - 1].Allowed? && MayRun(st, h, n - 1, h[n - 1].at) && LatestAt(h, n);
      assert IsUse(h[i]) && i < n - 1;
    }
  }

  /** Two failing executions are at least a cooldown apart. */
  lemma {:induction false} FailuresApart(st: Strategy, h: History, n: nat)
    requires Reachable(st, h) && n <= |h|
    ensures Spaced(TimesOf(h, n, IsFailure), 1, st.cooldown)
  {
    if n > 0 {
      FailuresApart(st, h, n - 1);
      if IsFailure(h[n - 1]) {
        NextFailureApart(st, h, n - 1);
        SpacedAppend(TimesOf(h, n - 1, IsFailure), h[n - 1].at, 1, st.cooldown);
      }
    }
  }

  /** The failure after a trip waits for the open time. */
  lemma TripPushes(st: Strategy, h: History, j: nat)
    requires Reachable(st, h) && j + 1 < |FailTimes(h)| && Trips(st, FailTimes(h), j)
    ensures FailTimes(h)[j + 1] - FailTimes(h)[j] >= st.openFor
  {
    var f := FailTimes(h);
    var i := SelectedEvent(h, |h|, IsFailure, j);
    var n := SelectedEvent(h, |h|, IsFailure, j + 1);
    if n <= i {
      TimesGrow(h, n + 1, i + 1, IsFailure);
    }
    SinceTripPrefix(st, f, TimesOf(h, i + 1, IsFailure), j + 1);
    OutcomeAfterTrip(st, h, n, i);
  }

  lemma FailuresArePaced(st: Strategy, h: History)
    requires Reachable(st, h)
    ensures Paced(st, FailTimes(h)) && Sorted(FailTimes(h))
  {
    FailuresApart(st, h, |h|);
    TimesSorted(h, |h|, IsFailure);
    forall j | 0 <= j < |FailTimes(h)| - 1
      ensures WaitsAfterTrip(st, FailTimes(h), j)
    {
      if Trips(st, FailTimes(h), j) {
        TripPushes(st, h, j);
      }
    }
  }

  // ----- Every paced list is the failures of a reachable log

  /** Executions that fail at once, at the first `n` of these times. */
  function FailRun(f: seq<int>, n: nat): History
    requires n <= |f|
  {
    if n == 0 then [] else Failing(FailRun(f, n - 1), f[n - 1])
  }

  /** The log of the first `n` failures, and which of its events are trips. */
  ghost predicate RunsAs(st: Strategy, f: seq<int>, n: nat, h: History)
    requires n <= |f|
  {
    && Reachable(st, h) && |h| == 2 * n && |FailTimes(h)| == n
    && forall j :: 0 <= j < n ==> RunsAt(st, f, h, j)
  }

  ghost predicate RunsAt(st: Strategy, f: seq<int>, h: History, j: nat)
    requires j < |f| && j < |FailTimes(h)| && 2 * j + 1 < |h|
  {
    && h[2 * j] == Allowed(f[j]) && h[2 * j + 1] == Recorded(f[j], true) && FailTimes(h)[j] == f[j]
    && (IsTrip(st, h, 2 * j + 1) <==> Trips(st, f, j))
  }

  lemma MayFailNext(st: Strategy, f: seq<int>, n: nat, h: History)
    requires st.Positive() && Paced(st, f) && Sorted(f) && n < |f| && RunsAs(st, f, n, h)
    ensures MayRun(st, h, |h|, f[n]) && forall i :: 0 <= i < |h| ==> h[i].at <= f[n]
  {
    forall i | 0 <= i < |h|
      ensures IsTrip(st, h, i) ==> h[i].at + st.openFor <= f[n]
      ensures IsUse(h[i]) ==> h[i].at + st.cooldown <= f[n]
      ensures h[i].at <= f[n]
    {
      var j := i / 2;
      assert RunsAt(st, f, h, j) && (i == 2 * j || i == 2 * j + 1);
      SortedPair(f, j + 1, n);
      assert f[j + 1] - f[j] >= st.cooldown && WaitsAfterTrip(st, f, j);
    }
  }

  lemma RunsAgree(st: Strategy, f: seq<int>, n: nat, h: History)
    requires n <= |f| && RunsAs(st, f, n, h)
    ensures FailTimes(h) == f[..n]
  {
    forall i | 0 <= i < n
      ensures FailTimes(h)[i] == f[i]
    {
      assert RunsAt(st, f, h, i);
    }
  }

  lemma RunsAtKeeps(st: Strategy, f: seq<int>, h: History, g: History, j: nat)
    requires j < |f| && j < |FailTimes(h)| && 2 * j + 1 < |h| && RunsAt(st, f, h, j)
    requires |h| < |g| && j < |FailTimes(g)| && FailTimes(g)[j] == f[j]
    requires forall i :: 0 <= i < |h| ==> g[i] == h[i] && IsTrip(st, g, i) == IsTrip(st, h, i)
    ensures RunsAt(st, f, g, j)
  {
  }

  lemma RunsExtends(st: Strategy, f: seq<int>, n: nat, h: History, g: History, fails: seq<int>)
    requires n < |f| && RunsAs(st, f, n, h) && |g| == |h| + 2 && FailTimes(g) == fails
    requires fails == f[..n] + [f[n]]
    requires g[2 * n] == Allowed(f[n]) && g[2 * n + 1] == Recorded(f[n], true)
    requires forall i :: 0 <= i < |h| ==> g[i] == h[i] && IsTrip(st, g, i) == IsTrip(st, h, i)
    requires Reachable(st, g) && (IsTrip(st, g, 2 * n + 1) <==> Trips(st, f, n))
    ensures RunsAs(st, f, n + 1, g)
  {
    forall j | 0 <= j < n + 1
      ensures RunsAt(st, f, g, j)
    {
      if j < n {
        assert RunsAt(st, f, h, j);
        RunsAtKeeps(st, f, h, g, j);
      }
    }
  }

  lemma RunsNext(st: Strategy, f: seq<int>, n: nat, h: History)
    requires st.Positive() && Paced(st, f) && Sorted(f) && n < |f| && RunsAs(st, f, n, h)
    ensures RunsAs(st, f, n + 1, Failing(h, f[n]))
  {
    MayFailNext(st, f, n, h);
    FailingExtends(st, h, f[n]);
    RunsAgree(st, f, n, h);
    SinceTripPrefix(st, f, f[..n] + [f[n]], n + 1);
    RunsExtends(st, f, n, h, Failing(h, f[n]), f[..n] + [f[n]]);
  }

  lemma {:induction false} PacedRuns(st: Strategy, f: seq<int>, n: nat)
    requires st.Positive() && Paced(st, f) && Sorted(f) && n <= |f|
    ensures RunsAs(st, f, n, FailRun(f, n))
  {
    if n > 0 {
      PacedRuns(st, f, n - 1);
      RunsNext(st, f, n - 1, FailRun(f, n - 1));
    }
  }

  // ----- The shortest span of one failure more than the burst limit

  function Max(a: int, b: int): int {
    if a < b then b else a
  }

  function Min(a: int, b: int): int {
    if a < b then a else b
  }

  /** `j` cooldowns. */
  function Steps(c: int, j: nat): int {
    if j == 0 then 0 else Steps(c, j - 1) + c
  }

  /** Either the last burstLimit - 1 failures wait out the burst window and one more follows a
      cooldown later, or burstLimit failures in a row trip and one more follows the open time
      later; for a burst limit of one every failure trips. */
  function SafeSpan(st: Strategy): int
    requires st.Positive()
  {
    var rest := Steps(st.cooldown, st.burstLimit - 1);
    var fast := rest + Max(st.openFor, st.cooldown);
    if st.burstLimit == 1 then fast else Min(Max(st.burstWindow, rest) + st.cooldown, fast)
  }

  lemma {:induction false} StepsAdd(c: int, i: nat, j: nat)
    ensures Steps(c, i) + Steps(c, j) == Steps(c, i + j)
  {
    if j > 0 {
      StepsAdd(c, i, j - 1);
    }
  }

  lemma {:induction false} StepsBetween(f: seq<int>, i: nat, j: nat, c: int)
    requires Spaced(f, 1, c) && i <= j < |f|
    ensures f[j] - f[i] >= Steps(c, j - i)
  {
    if i < j {
      StepsBetween(f, i, j - 1, c);
      assert (j - 1) + 1 == j && f[j] - f[j - 1] >= c;
    }
  }

  /** One failure more than the burst limit takes at least the safe span. */
  lemma PacedSpan(st: Strategy, f: seq<int>, i: nat)
    requires st.Positive() && Paced(st, f) && Sorted(f) && i + st.burstLimit < |f|
    ensures f[i + st.burstLimit] - f[i] >= SafeSpan(st)
  {
    var c, l := st.cooldown, st.burstLimit;
    StepsBetween(f, i, i + l - 1, c);
    assert f[i + l] - f[i + l - 1] >= c by {
      assert (i + l - 1) + 1 == i + l;
    }
    if f[i + l - 1] - f[i] < st.burstWindow {
      var k := SomeTrip(st, f, i);
      assert WaitsAfterTrip(st, f, k) && f[k + 1] - f[k] >= c;
      StepsBetween(f, i, k, c);
      StepsBetween(f, k + 1, i + l, c);
      StepsAdd(c, k - i, i + l - k - 1);
    }
  }

  /** At most burstLimit failing executions are recorded in any interval no longer than that. */
  lemma FailureBound(st: Strategy, h: History, span: int, x: int)
    requires st.Positive() && Reachable(st, h) && span <= SafeSpan(st)
    ensures CountIn(FailTimes(h), x - span, x) <= st.burstLimit
  {
    var f := FailTimes(h);
    FailuresArePaced(st, h);
    forall i, j | 0 <= i && i + st.burstLimit == j < |f|
      ensures f[j] - f[i] >= span
    {
      PacedSpan(st, f, i);
    }
    SpacedBoundsCount(f, st.burstLimit, span, x);
  }

  lemma {:induction false} StepsAtLeast(c: int, j: nat)
    requires 0 < c
    ensures 0 <= Steps(c, j)
  {
    if j > 0 {
      StepsAtLeast(c, j - 1);
    }
  }

  /** The safe span is longer than the burst window or at least the open time. */
  lemma SafeSpanCovers(st: Strategy)
    requires st.Positive()
    ensures Min(st.burstWindow, st.openFor) <= SafeSpan(st)
  {
    StepsAtLeast(st.cooldown, st.burstLimit - 1);
  }

  // ----- The bound is exact

  lemma {:induction false} SinceTripShort(st: Strategy, f: seq<int>, n: nat)
    requires n <= |f|
    ensures |SinceTrip(st, f, n)| <= n
  {
    if n > 0 && !Trips(st, f, n - 1) {
      SinceTripShort(st, f, n - 1);
    }
  }

  lemma {:induction false} AfterUpToShort(s: seq<int>, n: nat, c: int)
    requires n <= |s|
    ensures |AfterUpTo(s, n, c)| <= n && (0 < n && s[0] <= c ==> |AfterUpTo(s, n, c)| < n)
  {
    if n > 0 {
      AfterUpToShort(s, n - 1, c);
    }
  }

  /** Fewer strikes than the burst limit never trip; nor do exactly that many if the first is
      out of the burst window. */
  lemma NoTripYet(st: Strategy, f: seq<int>, j: nat)
    requires st.Positive() && j < |f| && j < st.burstLimit
    requires j == st.burstLimit - 1 ==> 0 < j && f[0] <= f[j] - st.burstWindow
    ensures !Trips(st, f, j)
    decreases j
  {
    forall i | 0 <= i < j
      ensures !Trips(st, f, i)
    {
      NoTripYet(st, f, i);
    }
    UntrippedTail(st, f, j, j);
    SinceTripShort(st, f, j);
    var s := SinceTrip(st, f, j) + [f[j]];
    AfterUpToShort(s, |s|, f[j] - st.burstWindow);
  }

  /** burstLimit failures a cooldown apart, the last of them at `late` at the earliest, then one
      more after `pause`. */
  function Schedule(st: Strategy, late: int, pause: int): (f: seq<int>)
    requires st.Positive()
    ensures |f| == st.burstLimit + 1
    ensures forall j :: 0 <= j < st.burstLimit - 1 ==> f[j] == Steps(st.cooldown, j)
    ensures f[st.burstLimit - 1] == Max(late, Steps(st.cooldown, st.burstLimit - 1))
    ensures f[st.burstLimit] == f[st.burstLimit - 1] + pause
  {
    var l := st.burstLimit;
    var last := Max(late, Steps(st.cooldown, l - 1));
    seq(l - 1, (j: nat) => Steps(st.cooldown, j)) + [last, last + pause]
  }

  lemma ScheduleSpaced(st: Strategy, late: int, pause: int)
    requires st.Positive() && st.cooldown <= pause
    ensures Spaced(Schedule(st, late, pause), 1, st.cooldown) && Sorted(Schedule(st, late, pause))
  {
    var f := Schedule(st, late, pause);
    forall j | 0 <= j < |f| - 1
      ensures f[j + 1] - f[j] >= st.cooldown
    {
      if j < st.burstLimit - 1 {
        assert Steps(st.cooldown, j + 1) == Steps(st.cooldown, j) + st.cooldown;
      }
    }
    SpacedSorted(f, |f|, st.cooldown);
  }

  lemma {:induction false} SpacedSorted(f: seq<int>, n: nat, c: int)
    requires n <= |f| && 0 < c && forall j :: 0 <= j < |f| - 1 ==> f[j + 1] - f[j] >= c
    ensures forall j :: 0 <= j < n ==> TopAt(f, j)
  {
    if n > 0 {
      SpacedSorted(f, n - 1, c);
      if n > 1 {
        assert TopAt(f, n - 2) && f[(n - 2) + 1] - f[n - 2] >= c;
      }
    }
  }

  /** Slowly: the burst never falls inside one window, so nothing trips. */
  lemma SlowIsPaced(st: Strategy)
    requires st.Positive() && 1 < st.burstLimit
    ensures Paced(st, Schedule(st, st.burstWindow, st.cooldown)) && Sorted(Schedule(st, st.burstWindow, st.cooldown))
  {
    var f := Schedule(st, st.burstWindow, st.cooldown);
    ScheduleSpaced(st, st.burstWindow, st.cooldown);
    forall j | 0 <= j < |f| - 1
      ensures WaitsAfterTrip(st, f, j)
    {
      assert f[0] == 0;
      NoTripYet(st, f, j);
    }
  }

  /** Fast: the burst may trip, and the next failure waits for the open time. */
  lemma FastIsPaced(st: Strategy)
    requires st.Positive()
    ensures Paced(st, Schedule(st, 0, Max(st.openFor, st.cooldown))) && Sorted(Schedule(st, 0, Max(st.openFor, st.cooldown)))
  {
    var f := Schedule(st, 0, Max(st.openFor, st.cooldown));
    ScheduleSpaced(st, 0, Max(st.openFor, st.cooldown));
    forall j | 0 <= j < |f| - 1
      ensures WaitsAfterTrip(st, f, j)
    {
      if j < st.burstLimit - 1 {
        NoTripYet(st, f, j);
      }
    }
  }

  lemma {:induction false} CountAll(f: seq<int>, n: nat, lo: int, hi: int)
    requires n <= |f| && forall i :: 0 <= i < n ==> lo < f[i] <= hi
    ensures CountUpTo(f, n, lo, hi) == n
  {
    if n > 0 {
      CountAll(f, n - 1, lo, hi);
    }
  }

  /** The log keeps to the burst limit in the interval ending at `x`. */
  ghost predicate KeepsTo(st: Strategy, h: History, span: int, x: int) {
    Reachable(st, h) ==> CountIn(FailTimes(h), x - span, x) <= st.burstLimit
  }

  lemma AllCounted(f: seq<int>, span: int)
    requires Sorted(f) && |f| > 0 && f[|f| - 1] - f[0] < span
    ensures CountIn(f, f[|f| - 1] - span, f[|f| - 1]) == |f|
  {
    var x := f[|f| - 1];
    forall i | 0 <= i < |f|
      ensures x - span < f[i] <= x
    {
      SortedPair(f, 0, i);
      SortedPair(f, i, |f| - 1);
    }
    CountAll(f, |f|, x - span, x);
  }

  /** One failure more than the burst limit, in less than `span`. */
  ghost predicate Crowded(st: Strategy, f: seq<int>, span: int) {
    Paced(st, f) && Sorted(f) && |f| == st.burstLimit + 1 > 0 && f[0] == 0 && f[|f| - 1] < span
  }

  lemma CrowdedSchedule(st: Strategy, span: int) returns (f: seq<int>)
    requires st.Positive() && SafeSpan(st) < span
    ensures Crowded(st, f, span)
  {
    var rest := Steps(st.cooldown, st.burstLimit - 1);
    StepsAtLeast(st.cooldown, st.burstLimit - 1);
    if rest + Max(st.openFor, st.cooldown) < span {
      f := Schedule(st, 0, Max(st.openFor, st.cooldown));
      FastIsPaced(st);
    } else {
      f := Schedule(st, st.burstWindow, st.cooldown);
      SlowIsPaced(st);
    }
    assert f[0] == 0;
  }

  lemma CrowdedExceeds(st: Strategy, f: seq<int>, span: int)
    requires st.Positive() && Crowded(st, f, span)
    ensures CountIn(f, f[|f| - 1] - span, f[|f| - 1]) > st.burstLimit
  {
    AllCounted(f, span);
  }

  lemma FailRunMeans(st: Strategy, f: seq<int>, h: History)
    requires st.Positive() && Paced(st, f) && Sorted(f) && h == FailRun(f, |f|)
    ensures Reachable(st, h) && FailTimes(h) == f
  {
    PacedRuns(st, f, |f|);
    RunsAgree(st, f, |f|, h);
    assert f[..|f|] == f;
  }

  lemma LongerExceeds(st: Strategy, span: int) returns (h: History, x: int)
    requires st.Positive() && SafeSpan(st) < span
    ensures !KeepsTo(st, h, span, x)
  {
    var f := CrowdedSchedule(st, span);
    h, x := FailRun(f, |f|), f[|f| - 1];
    FailRunMeans(st, f, h);
    CrowdedExceeds(st, f, span);
  }

  /** At most burstLimit failing executions fit into every interval of length `span`, in every
      log that follows the rules, if and only if `span` is at most the safe span. */
  lemma FailureBoundIff(st: Strategy, span: int)
    requires st.Positive()
    ensures (forall h: History, x: int :: KeepsTo(st, h, span, x)) <==> span <= SafeSpan(st)
  {
    if span <= SafeSpan(st) {
      forall h: History, x: int
        ensures KeepsTo(st, h, span, x)
      {
        if Reachable(st, h) {
          FailureBound(st, h, span, x);
        }
      }
    } else {
      var h, x := LongerExceeds(st, span);
    }
  }
}
