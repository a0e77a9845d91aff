/** What the two gates of the breaker mean, told on the events of the log themselves: which
    events make a call wait, for how long, and when failures or crashes open the circuit. */
module BreakerGates {
  import opened Options
  import opened Windows
  import opened BreakerHistory

  // ----- The cooldown

  /** An allowed call comes a full cooldown after every allowed call and every outcome, failed
      or not. */
  lemma CallsApart(st: Strategy, h: History, i: nat, n: nat)
    requires Decided(st, h) && i < n < |h| && h[n].Allowed?
    requires h[i].Allowed? || h[i].Recorded?
    ensures h[n].at - h[i].at >= st.cooldown
  {
    assert MayRun(st, h, n, h[n].at) && IsUse(h[i]);
  }

  /** Only an allowed call or an outcome less than a cooldown ago makes a call wait. */
  lemma WaitsIff(st: Strategy, h: History, now: int)
    ensures Rested(st, h, |h|, now) <==>
            forall i :: 0 <= i < |h| && (h[i].Allowed? || h[i].Recorded?) ==> now - h[i].at >= st.cooldown
  {
  }

  // ----- The circuit

  /** How many of the first `n` events are failed outcomes in (lo, hi]. */
  function FailuresIn(h: History, n: nat, lo: int, hi: int): nat
    requires n <= |h|
  {
    if n == 0 then 0
    else
      FailuresIn(h, n - 1, lo, hi) +
      match h[n - 1]
      case Recorded(at, failed) => if failed && lo < at <= hi then 1 else 0
      case _ => 0
  }

  /** How many of the first `n` events are crashes in (lo, hi]. */
  function CrashesIn(h: History, n: nat, lo: int, hi: int): nat
    requires n <= |h|
  {
    if n == 0 then 0
    else
      CrashesIn(h, n - 1, lo, hi) +
      match h[n - 1]
      case Crashed(at) => if lo < at <= hi then 1 else 0
      case _ => 0
  }

  lemma {:induction false} CountAppend(f: seq<int>, t: int, n: nat, lo: int, hi: int)
    requires n <= |f|
    ensures CountUpTo(f + [t], n, lo, hi) == CountUpTo(f, n, lo, hi)
  {
    if n > 0 {
      CountAppend(f, t, n - 1, lo, hi);
    }
  }

  lemma {:induction false} StrikesAreEvents(h: History, n: nat, lo: int, hi: int)
    requires n <= |h|
    ensures CountIn(TimesOf(h, n, IsFailure), lo, hi) == FailuresIn(h, n, lo, hi)
    ensures CountIn(TimesOf(h, n, IsCrash), lo, hi) == CrashesIn(h, n, lo, hi)
  {
    if n > 0 {
      StrikesAreEvents(h, n - 1, lo, hi);
      var f, c := TimesOf(h, n - 1, IsFailure), TimesOf(h, n - 1, IsCrash);
      CountAppend(f, h[n - 1].at, |f|, lo, hi);
      CountAppend(c, h[n - 1].at, |c|, lo, hi);
    }
  }

  /** The strikes since the last trip are the last of the list. */
  lemma {:induction false} SinceTripIs(st: Strategy, f: seq<int>, m: nat, n: nat)
    requires m <= n <= |f| && (m == 0 || Trips(st, f, m - 1)) && forall k :: m <= k < n ==> !Trips(st, f, k)
    ensures SinceTrip(st, f, n) == f[m..n]
  {
    if m < n {
      SinceTripIs(st, f, m, n - 1);
    }
  }

  lemma {:induction false} AfterIsTail(s: seq<int>, n: nat, c: int, b: nat)
    requires Sorted(s) && n <= |s| && 0 < b
    ensures |AfterUpTo(s, n, c)| <= n
    ensures |AfterUpTo(s, n, c)| >= b <==> b <= n && s[n - b] > c
  {
    if n > 0 {
      AfterIsTail(s, n - 1, c, b);
      if b > 1 {
        AfterIsTail(s, n - 1, c, b - 1);
      }
      assert TopAt(s, n - 1);
    }
  }

  /** A strike opens the circuit exactly if it is the burstLimit-th since the last one that did,
      or a later one, and that many strikes fit into one burst window. */
  lemma TripIff(st: Strategy, f: seq<int>, m: nat, i: nat)
    requires st.Positive() && Sorted(f) && m <= i < |f|
    requires (m == 0 || Trips(st, f, m - 1)) && forall k :: m <= k < i ==> !Trips(st, f, k)
    ensures Trips(st, f, i) <==> m + st.burstLimit <= i + 1 && f[i] - f[i + 1 - st.burstLimit] < st.burstWindow
  {
    SinceTripIs(st, f, m, i);
    var s := SinceTrip(st, f, i) + [f[i]];
    assert s == f[m..i + 1];
    forall j | 0 <= j < |s|
      ensures TopAt(s, j)
    {
      assert TopAt(f, m + j);
    }
    AfterIsTail(s, |s|, f[i] - st.burstWindow, st.burstLimit);
  }

  /** The strikes of a trip are at least burstLimit, and all in one burst window. */
  lemma TripHasBurst(st: Strategy, f: seq<int>, i: nat)
    requires st.Positive() && Sorted(f) && i < |f| && Trips(st, f, i)
    ensures st.burstLimit <= i + 1 && f[i] - f[i + 1 - st.burstLimit] < st.burstWindow
  {
    var m: nat := i;
    while m > 0 && !Trips(st, f, m - 1)
      invariant m <= i && forall k :: m <= k < i ==> !Trips(st, f, k)
    {
      m := m - 1;
    }
    TripIff(st, f, m, i);
  }

  lemma {:induction false} CountsTail(f: seq<int>, n: nat, b: nat, lo: int, hi: int)
    requires n <= |f| && b <= n && forall k :: n - b <= k < n ==> lo < f[k] <= hi
    ensures CountUpTo(f, n, lo, hi) >= b
  {
    if b > 0 {
      CountsTail(f, n - 1, b - 1, lo, hi);
    }
  }

  /** An event that opens the circuit completes burstLimit failures, or burstLimit crashes,
      within one burst window. */
  lemma TripMeans(st: Strategy, h: History, i: nat)
    requires st.Positive() && Ordered(h) && i < |h| && IsTrip(st, h, i)
    ensures var at := h[i].at;
            FailuresIn(h, i + 1, at - st.burstWindow, at) >= st.burstLimit || CrashesIn(h, i + 1, at - st.burstWindow, at) >= st.burstLimit
  {
    var at := h[i].at;
    StrikesAreEvents(h, i + 1, at - st.burstWindow, at);
    if IsFailure(h[i]) && NewestTrips(st, h, i + 1, IsFailure) {
      NewestHasBurst(st, h, i + 1, IsFailure);
    } else {
      NewestHasBurst(st, h, i + 1, IsCrash);
    }
  }

  lemma NewestHasBurst(st: Strategy, h: History, n: nat, p: Event -> bool)
    requires st.Positive() && Ordered(h) && 0 < n <= |h| && p(h[n - 1]) && NewestTrips(st, h, n, p)
    ensures CountIn(TimesOf(h, n, p), h[n - 1].at - st.burstWindow, h[n - 1].at) >= st.burstLimit
  {
    var f := TimesOf(h, n, p);
    TimesSorted(h, n, p);
    TripHasBurst(st, f, |f| - 1);
    forall k | |f| - st.burstLimit <= k < |f|
      ensures h[n - 1].at - st.burstWindow < f[k] <= h[n - 1].at
    {
      SortedPair(f, |f| - st.burstLimit, k);
      SortedPair(f, k, |f| - 1);
    }
    CountsTail(f, |f|, st.burstLimit, h[n - 1].at - st.burstWindow, h[n - 1].at);
  }

  /** Enough entries in an interval: so many consecutive ones. */
  lemma {:induction false} Consecutive(f: seq<int>, n: nat, b: nat, lo: int, hi: int) returns (i: nat)
    requires Sorted(f) && n <= |f| && 0 < b <= CountUpTo(f, n, lo, hi)
    ensures i + b <= n && lo < f[i] && f[i + b - 1] <= hi
  {
    if f[n - 1] > hi {
      i := Consecutive(f, n - 1, b, lo, hi);
    } else {
      CountOfTail(f, n, 0, lo, hi);
      i := n - b;
      if f[i] <= lo {
        forall k | 0 <= k <= i
          ensures f[k] <= lo
        {
          SortedPair(f, k, i);
        }
        CountOfTail(f, n, i + 1, lo, hi);
      }
    }
  }

  lemma StrikeTrips(st: Strategy, h: History, p: Event -> bool, k: nat) returns (e: nat)
    requires (p == IsFailure || p == IsCrash) && k < |TimesOf(h, |h|, p)| && Trips(st, TimesOf(h, |h|, p), k)
    ensures e < |h| && IsTrip(st, h, e) && h[e].at == TimesOf(h, |h|, p)[k]
  {
    e := SelectedEvent(h, |h|, p, k);
    SinceTripPrefix(st, TimesOf(h, |h|, p), TimesOf(h, e + 1, p), k + 1);
  }

  lemma TripShuts(st: Strategy, h: History, p: Event -> bool, lo: int, hi: int, now: int)
    requires st.Positive() && Ordered(h) && hi - lo <= st.burstWindow && now - st.openFor <= lo
    requires p == IsFailure || p == IsCrash
    requires CountIn(TimesOf(h, |h|, p), lo, hi) >= st.burstLimit
    ensures !Closed(st, h, |h|, now)
  {
    var f := TimesOf(h, |h|, p);
    TimesSorted(h, |h|, p);
    var i := Consecutive(f, |f|, st.burstLimit, lo, hi);
    var k := SomeTrip(st, f, i);
    SortedPair(f, i, k);
    var e := StrikeTrips(st, h, p, k);
  }

  /** burstLimit failures, or burstLimit crashes, within one burst window and all of them less
      than the open time ago hold the circuit open. */
  lemma BurstShuts(st: Strategy, h: History, lo: int, hi: int, now: int)
    requires st.Positive() && Ordered(h) && hi - lo <= st.burstWindow && now - st.openFor <= lo
    requires FailuresIn(h, |h|, lo, hi) >= st.burstLimit || CrashesIn(h, |h|, lo, hi) >= st.burstLimit
    ensures !Closed(st, h, |h|, now)
  {
    StrikesAreEvents(h, |h|, lo, hi);
    if FailuresIn(h, |h|, lo, hi) >= st.burstLimit {
      TripShuts(st, h, IsFailure, lo, hi, now);
    } else {
      TripShuts(st, h, IsCrash, lo, hi, now);
    }
  }

  // ----- The answer

  /** What the breaker answers to a call at `now`. */
  datatype Answer = Answer(allowed: bool, reason: string, openedAt: Option<int>, retryAfter: int)

  /** No failures or crashes of the last open time make up a burst. */
  ghost predicate NoBurst(st: Strategy, h: History, now: int) {
    forall lo, hi :: hi - lo <= st.burstWindow && now - st.openFor <= lo ==>
      FailuresIn(h, |h|, lo, hi) < st.burstLimit && CrashesIn(h, |h|, lo, hi) < st.burstLimit
  }

  /** Event `i` completes a burst, less than the open time ago. */
  ghost predicate OpenedBy(st: Strategy, h: History, i: nat, now: int)
    requires i < |h|
  {
    var at := h[i].at;
    now < at + st.openFor &&
    (FailuresIn(h, i + 1, at - st.burstWindow, at) >= st.burstLimit || CrashesIn(h, i + 1, at - st.burstWindow, at) >= st.burstLimit)
  }

  /** Event `i` is the last to start a cooldown, and it is not over yet. */
  ghost predicate CooledBy(st: Strategy, h: History, i: nat, now: int)
    requires i < |h|
  {
    (h[i].Allowed? || h[i].Recorded?) && now - h[i].at < st.cooldown &&
    forall j :: 0 <= j < |h| && (h[j].Allowed? || h[j].Recorded?) ==> h[j].at <= h[i].at
  }

  /** The answer told on the events alone. `later` is the reading for the waiting time of an
      open circuit. */
  ghost predicate Fits(st: Strategy, h: History, now: int, later: int, a: Answer) {
    match a.reason
    case "ok" =>
      a.allowed && a.openedAt == None && a.retryAfter == 0 && NoBurst(st, h, now) &&
      forall i :: 0 <= i < |h| && (h[i].Allowed? || h[i].Recorded?) ==> now - h[i].at >= st.cooldown
    case "cooldown" =>
      !a.allowed && a.openedAt == None && NoBurst(st, h, now) &&
      exists i :: 0 <= i < |h| && CooledBy(st, h, i, now) && a.retryAfter == h[i].at + st.cooldown - now
    case "circuit_open" =>
      !a.allowed &&
      exists i :: 0 <= i < |h| && OpenedBy(st, h, i, now) && a.openedAt == Some(h[i].at) && a.retryAfter == h[i].at + st.openFor - later
    case _ => false
  }
}
