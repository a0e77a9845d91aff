/** What the auto-heal circuit breaker promises, stated over the complete log of calls
    for one key, and the bounds that follow from it. Nothing here is purged: the fast
    form that keeps only short windows is module CircuitBreaker. Functions take the log and
    the number `n` of its first events they look at. */
module BreakerHistory {
  import opened Windows

  datatype Strategy = Strategy(cooldown: int, burstLimit: int, burstWindow: int, openFor: int) {
    predicate Positive() {
      0 < cooldown && 0 < burstLimit && 0 < burstWindow && 0 < openFor
    }
  }

  datatype Event =
    | Allowed(at: int)
    | Denied(at: int)
    | Recorded(at: int, failed: bool)
    | Crashed(at: int)

  type History = seq<Event>

  predicate IsAllowed(e: Event) {
    e.Allowed?
  }

  predicate IsFailure(e: Event) {
    e.Recorded? && e.failed
  }

  predicate IsCrash(e: Event) {
    e.Crashed?
  }

  predicate IsUse(e: Event) {
    e.Allowed? || e.Recorded?
  }

  /** No earlier event happened after event `j`. */
  ghost predicate LatestAt(h: History, j: nat)
    requires j < |h|
  {
    forall i :: 0 <= i < j ==> h[i].at <= h[j].at
  }

  ghost predicate Ordered(h: History) {
    forall j :: 0 <= j < |h| ==> LatestAt(h, j)
  }

  lemma OrderedAppend(h: History, e: Event)
    requires Ordered(h) && forall i :: 0 <= i < |h| ==> h[i].at <= e.at
    ensures Ordered(h + [e])
  {
    forall j | 0 <= j < |h + [e]|
      ensures LatestAt(h + [e], j)
    {
      assert j < |h| ==> LatestAt(h, j);
    }
  }

  /** The times of the selected events among the first `n`. */
  function TimesOf(h: History, n: nat, p: Event -> bool): seq<int>
    requires n <= |h|
  {
    if n == 0 then []
    else
      var rest := TimesOf(h, n - 1, p);
      if p(h[n - 1]) then rest + [h[n - 1].at] else rest
  }

  function FailTimes(h: History): seq<int> {
    TimesOf(h, |h|, IsFailure)
  }

  function AllowTimes(h: History): seq<int> {
    TimesOf(h, |h|, IsAllowed)
  }

  /** Of the first `n` strikes, those after the last trip. */
  function SinceTrip(st: Strategy, strikes: seq<int>, n: nat): seq<int>
    requires n <= |strikes|
    decreases n, 1
  {
    if n == 0 || Trips(st, strikes, n - 1) then []
    else SinceTrip(st, strikes, n - 1) + [strikes[n - 1]]
  }

  /** Strike `i` is a trip: with it, the strikes since the previous trip that fall in
      the burst window ending at it number burstLimit or more. */
  predicate Trips(st: Strategy, strikes: seq<int>, i: nat)
    requires i < |strikes|
    decreases i, 2
  {
    |After(SinceTrip(st, strikes, i) + [strikes[i]], strikes[i] - st.burstWindow)| >= st.burstLimit
  }

  /** The newest of the selected events among the first `n` is a trip of their kind. */
  predicate NewestTrips(st: Strategy, h: History, n: nat, p: Event -> bool)
    requires n <= |h|
  {
    var strikes := TimesOf(h, n, p);
    strikes != [] && Trips(st, strikes, |strikes| - 1)
  }

  /** Event `i` opens the circuit. */
  predicate IsTrip(st: Strategy, h: History, i: nat)
    requires i < |h|
  {
    (IsFailure(h[i]) && NewestTrips(st, h, i + 1, IsFailure)) || (IsCrash(h[i]) && NewestTrips(st, h, i + 1, IsCrash))
  }

  /** No trip among the first `n` events still holds the circuit open at `now`. */
  ghost predicate Closed(st: Strategy, h: History, n: nat, now: int)
    requires n <= |h|
  {
    forall i :: 0 <= i < n && IsTrip(st, h, i) ==> h[i].at + st.openFor <= now
  }

  /** Every use among the first `n` events is at least a cooldown old at `now`. */
  ghost predicate Rested(st: Strategy, h: History, n: nat, now: int)
    requires n <= |h|
  {
    forall i :: 0 <= i < n && IsUse(h[i]) ==> h[i].at + st.cooldown <= now
  }

  /** The decision the first `n` events call for. */
  ghost predicate MayRun(st: Strategy, h: History, n: nat, now: int)
    requires n <= |h|
  {
    Closed(st, h, n, now) && Rested(st, h, n, now)
  }

  /** Every decision in the log is the one the log before it calls for. */
  ghost predicate Decided(st: Strategy, h: History) {
    forall i :: 0 <= i < |h| && (h[i].Allowed? || h[i].Denied?) ==> (h[i].Allowed? <==> MayRun(st, h, i, h[i].at))
  }

  /** The agent records an outcome only for the call it was just allowed. */
  ghost predicate AgentShaped(h: History) {
    forall i :: 0 <= i < |h| && h[i].Recorded? ==> 0 < i && h[i - 1].Allowed?
  }

  // ----- Only the prefix matters

  ghost predicate SamePrefix(h: History, g: History, n: nat) {
    n <= |h| && n <= |g| && forall i :: 0 <= i < n ==> h[i] == g[i]
  }

  lemma {:induction false} TimesOfPrefix(h: History, g: History, n: nat, p: Event -> bool)
    requires SamePrefix(h, g, n)
    ensures TimesOf(h, n, p) == TimesOf(g, n, p)
  {
    if n > 0 {
      TimesOfPrefix(h, g, n - 1, p);
    }
  }

  lemma {:induction false} SinceTripPrefix(st: Strategy, f: seq<int>, g: seq<int>, n: nat)
    requires n <= |f| && n <= |g| && forall i :: 0 <= i < n ==> f[i] == g[i]
    ensures SinceTrip(st, f, n) == SinceTrip(st, g, n)
    ensures forall i :: 0 <= i < n ==> Trips(st, f, i) == Trips(st, g, i)
  {
    if n > 0 {
      SinceTripPrefix(st, f, g, n - 1);
    }
  }

  lemma TripPrefix(st: Strategy, h: History, g: History, n: nat)
    requires SamePrefix(h, g, n)
    ensures forall i :: 0 <= i < n ==> IsTrip(st, h, i) == IsTrip(st, g, i)
    ensures forall now :: MayRun(st, h, n, now) <==> MayRun(st, g, n, now)
  {
    forall i | 0 <= i < n
      ensures IsTrip(st, h, i) == IsTrip(st, g, i)
    {
      TimesOfPrefix(h, g, i + 1, IsFailure);
      TimesOfPrefix(h, g, i + 1, IsCrash);
    }
  }

  lemma DecidedAppend(st: Strategy, h: History, e: Event)
    requires Decided(st, h)
    requires e.Allowed? || e.Denied? ==> (e.Allowed? <==> MayRun(st, h, |h|, e.at))
    ensures Decided(st, h + [e])
  {
    var g := h + [e];
    forall i | 0 <= i < |g| && (g[i].Allowed? || g[i].Denied?)
      ensures g[i].Allowed? <==> MayRun(st, g, i, g[i].at)
    {
      TripPrefix(st, h, g, i);
    }
  }

  // ----- The selected times

  lemma {:induction false} TimesSorted(h: History, n: nat, p: Event -> bool)
    requires Ordered(h) && n <= |h|
    ensures Sorted(TimesOf(h, n, p))
  {
    if n > 0 {
      TimesSorted(h, n - 1, p);
      var rest := TimesOf(h, n - 1, p);
      forall k | 0 <= k < |rest|
        ensures rest[k] <= h[n - 1].at
      {
        var i := SelectedEvent(h, n - 1, p, k);
        assert LatestAt(h, n - 1);
      }
      if p(h[n - 1]) {
        SortedAppend(rest, h[n - 1].at);
      }
    }
  }

  /** The last selected event and its time. */
  lemma {:induction false} LastSelected(h: History, n: nat, p: Event -> bool) returns (i: nat)
    requires n <= |h| && TimesOf(h, n, p) != []
    ensures i < n && p(h[i]) && h[i].at == TimesOf(h, n, p)[|TimesOf(h, n, p)| - 1]
  {
    if p(h[n - 1]) {
      i := n - 1;
    } else {
      i := LastSelected(h, n - 1, p);
    }
  }

  /** The k-th selected time belongs to an event at which it is the newest one. */
  lemma {:induction false} SelectedEvent(h: History, n: nat, p: Event -> bool, k: nat) returns (i: nat)
    requires n <= |h| && k < |TimesOf(h, n, p)|
    ensures i < n && p(h[i]) && h[i].at == TimesOf(h, n, p)[k]
    ensures TimesOf(h, i + 1, p) == TimesOf(h, n, p)[..k + 1]
  {
    if p(h[n - 1]) && k == |TimesOf(h, n, p)| - 1 {
      i := n - 1;
    } else {
      i := SelectedEvent(h, n - 1, p, k);
    }
  }

  // ----- Bound on allowed executions

  lemma NextApart(st: Strategy, h: History, n: nat)
    requires Decided(st, h) && n < |h| && h[n].Allowed?
    ensures var rest := TimesOf(h, n, IsAllowed); rest != [] ==> h[n].at - rest[|rest| - 1] >= st.cooldown
  {
    if TimesOf(h, n, IsAllowed) != [] {
      var i := LastSelected(h, n, IsAllowed);
      assert MayRun(st, h, n, h[n].at) && IsUse(h[i]);
    }
  }

  /** Two allowed executions are at least a cooldown apart. */
  lemma {:induction false} AllowedApart(st: Strategy, h: History, n: nat)
    requires Decided(st, h) && n <= |h|
    ensures Spaced(TimesOf(h, n, IsAllowed), 1, st.cooldown)
  {
    if n > 0 {
      AllowedApart(st, h, n - 1);
      if h[n - 1].Allowed? {
        NextApart(st, h, n - 1);
        SpacedAppend(TimesOf(h, n - 1, IsAllowed), h[n - 1].at, 1, st.cooldown);
      }
    }
  }

  /** Entries spaced one by one by `gap` are spaced `b` by `b` by `b * gap`. */
  lemma {:induction false} SpacedMultiplies(s: seq<int>, b: nat, gap: int)
    requires Spaced(s, 1, gap)
    ensures Spaced(s, b, b * gap)
  {
    if b > 0 {
      SpacedMultiplies(s, b - 1, gap);
      forall i, j | 0 <= i && i + b == j < |s|
        ensures s[j] - s[i] >= b * gap
      {
        assert s[j - 1] - s[i] >= (b - 1) * gap;
        assert (j - 1) + 1 == j && s[j] - s[j - 1] >= gap;
        assert b * gap == (b - 1) * gap + gap;
      }
    }
  }

  /** At most ceil(span / cooldown) executions are allowed in any interval (x - span, x]. */
  lemma ExecutionBound(st: Strategy, h: History, span: int, x: int)
    requires st.Positive() && Ordered(h) && Decided(st, h) && 0 < span
    ensures CountIn(AllowTimes(h), x - span, x) <= (span + st.cooldown - 1) / st.cooldown
  {
    var b := (span + st.cooldown - 1) / st.cooldown;
    assert span <= b * st.cooldown;
    AllowedApart(st, h, |h|);
    SpacedMultiplies(AllowTimes(h), b, st.cooldown);
    assert Spaced(AllowTimes(h), b, span);
    TimesSorted(h, |h|, IsAllowed);
    SpacedBoundsCount(AllowTimes(h), b, span, x);
  }

  // ----- Bound on failing executions

  /** Without a trip among the last `k` of the first `n` strikes, those are all still counted. */
  lemma {:induction false} UntrippedTail(st: Strategy, f: seq<int>, n: nat, k: nat)
    requires k <= n <= |f|
    requires forall j :: n - k <= j < n ==> !Trips(st, f, j)
    ensures k <= |SinceTrip(st, f, n)|
    ensures forall j :: n - k <= j < n ==> f[j] == SinceTrip(st, f, n)[|SinceTrip(st, f, n)| - n + j]
  {
    if k > 0 {
      UntrippedTail(st, f, n - 1, k - 1);
    }
  }

  lemma {:induction false} AfterLongTail(s: seq<int>, n: nat, k: nat, c: int)
    requires k <= n <= |s| && forall i :: n - k <= i < n ==> s[i] > c
    ensures |AfterUpTo(s, n, c)| >= k
  {
    if k > 0 {
      AfterLongTail(s, n - 1, k - 1, c);
    }
  }

  /** burstLimit strikes inside one burst window, the last of them strike `i`, trip at
      `i` unless one of them tripped earlier. */
  lemma BurstTrips(st: Strategy, f: seq<int>, i: nat)
    requires st.Positive() && Sorted(f) && st.burstLimit - 1 <= i < |f|
    requires f[i] - f[i - (st.burstLimit - 1)] < st.burstWindow
    requires forall k :: i - (st.burstLimit - 1) <= k < i ==> !Trips(st, f, k)
    ensures Trips(st, f, i)
  {
    var b := st.burstLimit - 1;
    UntrippedTail(st, f, i, b);
    var s := SinceTrip(st, f, i);
    var t := s + [f[i]];
    forall j | |t| - (b + 1) <= j < |t|
      ensures t[j] > f[i] - st.burstWindow
    {
      var d := i - |s| + j;
      assert TopAt(f, i) && (d < i ==> TopAt(f, d));
      if d < i {
        assert f[d] == s[|s| - i + d];
      }
    }
    AfterLongTail(t, |t|, b + 1, f[i] - st.burstWindow);
  }

  /** burstLimit strikes within the burst window contain a trip. */
  lemma SomeTrip(st: Strategy, f: seq<int>, i: nat) returns (k: nat)
    requires st.Positive() && Sorted(f) && i + st.burstLimit <= |f|
    requires f[i + st.burstLimit - 1] - f[i] < st.burstWindow
    ensures i <= k < i + st.burstLimit && Trips(st, f, k)
  {
    var last := i + st.burstLimit - 1;
    if j: nat :| i <= j < last && Trips(st, f, j) {
      k := j;
    } else {
      k := last;
      BurstTrips(st, f, last);
    }
  }

  /** A recorded outcome belongs to a call allowed only after every earlier trip ran out. */
  lemma OutcomeAfterTrip(st: Strategy, h: History, n: nat, i: nat)
    requires Ordered(h) && Decided(st, h) && AgentShaped(h)
    requires i < n < |h| && h[n].Recorded? && IsTrip(st, h, i)
    ensures h[i].at + st.openFor <= h[n].at
  {
    assert h[n - 1].Allowed? && MayRun(st, h, n - 1, h[n - 1].at) && LatestAt(h, n);
  }
}
