/** The auto-heal circuit breaker: per key it keeps short windows, compacted on every
    call, a last-use time and an open-until deadline. Proved to take, at every call,
    the decision the complete log of calls asks for. */
module CircuitBreaker {
  import Clock
  import opened Options
  import opened Windows
  import opened BreakerHistory
  import opened BreakerGates

  const DEFAULT_STRATEGY := Strategy(60 * Clock.SECOND, 5, 600 * Clock.SECOND, 300 * Clock.SECOND)

  /** A strategy with any non-positive field falls back to the default one. */
  function Effective(st: Strategy): (r: Strategy)
    ensures r.Positive()
    ensures st.Positive() ==> r == st
    ensures !st.Positive() ==> r == DEFAULT_STRATEGY
  {
    if st.cooldown <= 0 || st.burstLimit <= 0 || st.burstWindow <= 0 || st.openFor <= 0
    then DEFAULT_STRATEGY else st
  }

  /** What the breaker's five maps hold for one key. */
  datatype Slot = Slot(
    last: Option<int>, opens: Option<int>,
    attempts: seq<int>, failures: seq<int>, crashes: seq<int>)

  function Purged(st: Strategy, s: Slot, at: int): Slot {
    s.(attempts := After(s.attempts, at - st.burstWindow),
       failures := After(s.failures, at - st.burstWindow),
       crashes := After(s.crashes, at - st.burstWindow))
  }

  predicate Holding(s: Slot, now: int) {
    s.opens.Some? && now < s.opens.value
  }

  predicate Cooling(st: Strategy, s: Slot, now: int) {
    s.last.Some? && 0 < st.cooldown - (now - s.last.value)
  }

  function AfterAllow(st: Strategy, s: Slot, purgeAt: int, now: int): Slot {
    var p := Purged(st, s, purgeAt);
    if Holding(p, now) then p
    else if Cooling(st, p, now) then p.(opens := None)
    else p.(opens := None, last := Some(now))
  }

  function AfterRecord(st: Strategy, s: Slot, now: int, failed: bool): Slot {
    var out := After(if failed then s.failures + [now] else s.failures, now - st.burstWindow);
    if |out| >= st.burstLimit then
      Slot(Some(now), Some(now + st.openFor), [], [], s.crashes)
    else
      Slot(Some(now), s.opens, After(s.attempts, now - st.burstWindow) + [now], out, s.crashes)
  }

  function AfterCrash(st: Strategy, s: Slot, now: int): Slot {
    var out := After(s.crashes, now - st.burstWindow) + [now];
    if |out| >= st.burstLimit then s.(opens := Some(now + st.openFor), crashes := [])
    else s.(crashes := out)
  }

  // ----- The log side of the refinement

  function LastOf(s: seq<int>): Option<int> {
    if s == [] then None else Some(s[|s| - 1])
  }

  function TripTimes(st: Strategy, h: History, n: nat): seq<int>
    requires n <= |h|
  {
    if n == 0 then []
    else
      var rest := TripTimes(st, h, n - 1);
      if IsTrip(st, h, n - 1) then rest + [h[n - 1].at] else rest
  }

  /** Recorded outcomes since the last failure trip: what `attempts` stands for. */
  function RecordsSinceTrip(st: Strategy, h: History, n: nat): seq<int>
    requires n <= |h|
  {
    if n == 0 then []
    else if !h[n - 1].Recorded? then RecordsSinceTrip(st, h, n - 1)
    else if IsTrip(st, h, n - 1) then []
    else RecordsSinceTrip(st, h, n - 1) + [h[n - 1].at]
  }

  /** The strikes of one kind since the last trip of that kind. */
  function Strikes(st: Strategy, h: History, p: Event -> bool): seq<int> {
    var strikes := TimesOf(h, |h|, p);
    SinceTrip(st, strikes, |strikes|)
  }

  ghost predicate KnownUntil(h: History, clock: int) {
    Ordered(h) && forall i :: 0 <= i < |h| ==> h[i].at <= clock
  }

  ghost predicate Window(w: seq<int>, full: seq<int>, st: Strategy, clock: int) {
    Agree(w, full, clock - st.burstWindow) && Sorted(w) && forall i :: 0 <= i < |w| ==> w[i] <= clock
  }

  /** The short windows carry everything the log still has to say about later decisions. */
  ghost predicate Tracks(st: Strategy, s: Slot, h: History, clock: int) {
    && KnownUntil(h, clock)
    && s.last == LastOf(TimesOf(h, |h|, IsUse))
    && (s.opens.Some? ==> LastOf(TripTimes(st, h, |h|)) == Some(s.opens.value - st.openFor))
    && (s.opens.None? ==> var t := LastOf(TripTimes(st, h, |h|)); t.Some? ==> t.value + st.openFor <= clock)
    && Window(s.attempts, RecordsSinceTrip(st, h, |h|), st, clock)
    && Window(s.failures, Strikes(st, h, IsFailure), st, clock) && |s.failures| < st.burstLimit
    && Window(s.crashes, Strikes(st, h, IsCrash), st, clock) && |s.crashes| < st.burstLimit
  }

  // ----- Window steps

  lemma WindowPurge(w: seq<int>, full: seq<int>, st: Strategy, clock: int, at: int)
    requires Window(w, full, st, clock) && clock <= at
    ensures Window(After(w, at - st.burstWindow), full, st, at)
    ensures |After(w, at - st.burstWindow)| <= |w|
  {
    AfterSorted(w, at - st.burstWindow);
    AgreePurge(w, full, at - st.burstWindow, clock - st.burstWindow);
  }

  lemma WindowLater(w: seq<int>, full: seq<int>, st: Strategy, clock: int, at: int)
    requires Window(w, full, st, clock) && clock <= at
    ensures Window(w, full, st, at)
  {
    AgreeLater(w, full, clock - st.burstWindow, at - st.burstWindow);
  }

  lemma WindowAppend(w: seq<int>, full: seq<int>, st: Strategy, clock: int, at: int)
    requires Window(w, full, st, clock) && clock <= at && 0 < st.burstWindow
    ensures Window(w + [at], full + [at], st, at)
    ensures After(w + [at], at - st.burstWindow) == After(w, at - st.burstWindow) + [at]
    ensures After(w + [at], at - st.burstWindow) == After(full + [at], at - st.burstWindow)
  {
    AgreeLater(w, full, clock - st.burstWindow, at - st.burstWindow);
    AgreeAppend(w, full, at, at - st.burstWindow);
    AfterAppend(w, at, at - st.burstWindow);
    SortedAppend(w, at);
  }

  /** Append, then purge at the new time. */
  lemma WindowStrike(w: seq<int>, full: seq<int>, st: Strategy, clock: int, at: int)
    requires Window(w, full, st, clock) && clock <= at && 0 < st.burstWindow
    ensures var out := After(w + [at], at - st.burstWindow);
            out == After(w, at - st.burstWindow) + [at] && out == After(full + [at], at - st.burstWindow) &&
            Window(out, full + [at], st, at)
  {
    WindowAppend(w, full, st, clock, at);
    WindowPurge(w + [at], full + [at], st, at, at);
  }

  lemma WindowEmpty(st: Strategy, clock: int)
    ensures Window([], [], st, clock)
  {
  }

  // ----- Deadlines and cooldowns

  lemma {:induction false} TripTimesMean(st: Strategy, h: History, n: nat, now: int)
    requires Ordered(h) && n <= |h|
    ensures var t := LastOf(TripTimes(st, h, n));
            (Closed(st, h, n, now) <==> (t.None? || t.value + st.openFor <= now)) &&
            (t.Some? ==> exists i :: 0 <= i < n && IsTrip(st, h, i) && h[i].at == t.value)
  {
    if n > 0 {
      TripTimesMean(st, h, n - 1, now);
      assert LatestAt(h, n - 1);
    }
  }

  lemma {:induction false} UseTimesMean(st: Strategy, h: History, n: nat, now: int)
    requires Ordered(h) && n <= |h|
    ensures var t := LastOf(TimesOf(h, n, IsUse));
            (Rested(st, h, n, now) <==> (t.None? || t.value + st.cooldown <= now)) &&
            (t.Some? ==> exists i :: 0 <= i < n && IsUse(h[i]) && h[i].at == t.value)
  {
    if n > 0 {
      UseTimesMean(st, h, n - 1, now);
      assert LatestAt(h, n - 1);
    }
  }

  /** The two gates of Allow are the two conditions on the log. */
  lemma GatesMatchLog(st: Strategy, s: Slot, h: History, clock: int, now: int)
    requires Tracks(st, s, h, clock) && clock <= now
    ensures Holding(s, now) <==> !Closed(st, h, |h|, now)
    ensures Cooling(st, s, now) <==> !Rested(st, h, |h|, now)
  {
    TripTimesMean(st, h, |h|, now);
    UseTimesMean(st, h, |h|, now);
  }

  // ----- Each call keeps the windows in step with the log

  lemma TracksLater(st: Strategy, s: Slot, h: History, clock: int, now: int)
    requires Tracks(st, s, h, clock) && clock <= now
    ensures Tracks(st, s, h, now)
  {
    WindowLater(s.attempts, RecordsSinceTrip(st, h, |h|), st, clock, now);
    WindowLater(s.failures, Strikes(st, h, IsFailure), st, clock, now);
    WindowLater(s.crashes, Strikes(st, h, IsCrash), st, clock, now);
  }

  lemma TracksPurged(st: Strategy, s: Slot, h: History, clock: int, at: int)
    requires Tracks(st, s, h, clock) && clock <= at
    ensures Tracks(st, Purged(st, s, at), h, at)
  {
    WindowPurge(s.attempts, RecordsSinceTrip(st, h, |h|), st, clock, at);
    WindowPurge(s.failures, Strikes(st, h, IsFailure), st, clock, at);
    WindowPurge(s.crashes, Strikes(st, h, IsCrash), st, clock, at);
  }

  /** How one more event changes what the log says. */
  lemma LogAppend(st: Strategy, h: History, e: Event)
    ensures var g := h + [e];
            TimesOf(g, |g|, IsUse) == (if IsUse(e) then TimesOf(h, |h|, IsUse) + [e.at] else TimesOf(h, |h|, IsUse))
    ensures var g := h + [e];
            TripTimes(st, g, |g|) == (if IsTrip(st, g, |h|) then TripTimes(st, h, |h|) + [e.at] else TripTimes(st, h, |h|))
    ensures var g := h + [e];
            RecordsSinceTrip(st, g, |g|) ==
              (if !e.Recorded? then RecordsSinceTrip(st, h, |h|)
               else if IsTrip(st, g, |h|) then [] else RecordsSinceTrip(st, h, |h|) + [e.at])
  {
    var g := h + [e];
    TimesOfPrefix(h, g, |h|, IsUse);
    TripTimesPrefix(st, h, g, |h|);
  }

  lemma {:induction false} TripTimesPrefix(st: Strategy, h: History, g: History, n: nat)
    requires SamePrefix(h, g, n)
    ensures TripTimes(st, h, n) == TripTimes(st, g, n) && RecordsSinceTrip(st, h, n) == RecordsSinceTrip(st, g, n)
  {
    if n > 0 {
      TripTimesPrefix(st, h, g, n - 1);
      TripPrefix(st, h, g, n);
    }
  }

  /** An event that is no strike of this kind leaves the strikes and the window alone. */
  lemma NoStrike(st: Strategy, h: History, e: Event, p: Event -> bool)
    requires !p(e)
    ensures Strikes(st, h + [e], p) == Strikes(st, h, p)
  {
    TimesOfPrefix(h, h + [e], |h|, p);
  }

  /** One more strike: the window decides the trip as the complete list does. */
  lemma StrikeMatches(st: Strategy, w: seq<int>, h: History, e: Event, p: Event -> bool, clock: int)
    requires st.Positive() && clock <= e.at && p(e)
    requires Window(w, Strikes(st, h, p), st, clock)
    ensures var out := After(w + [e.at], e.at - st.burstWindow);
            out == After(w, e.at - st.burstWindow) + [e.at] &&
            (|out| >= st.burstLimit <==> NewestTrips(st, h + [e], |h| + 1, p)) &&
            Window(if |out| >= st.burstLimit then [] else out, Strikes(st, h + [e], p), st, e.at)
  {
    var g := h + [e];
    var strikes := TimesOf(h, |h|, p);
    var more := TimesOf(g, |g|, p);
    TimesOfPrefix(h, g, |h|, p);
    assert more == strikes + [e.at];
    SinceTripPrefix(st, strikes, more, |strikes|);
    WindowStrike(w, Strikes(st, h, p), st, clock, e.at);
    WindowEmpty(st, e.at);
  }

  /** Allow decides as the log does, whatever was purged before, and records its decision. */
  lemma AllowMatchesLog(st: Strategy, s: Slot, h: History, clock: int, purgeAt: int, now: int)
    requires st.Positive() && Tracks(st, s, h, clock) && clock <= purgeAt <= now
    ensures var p := Purged(st, s, purgeAt);
            var yes := !Holding(p, now) && !Cooling(st, p, now);
            yes == MayRun(st, h, |h|, now) &&
            Tracks(st, AfterAllow(st, s, purgeAt, now), h + [if yes then Allowed(now) else Denied(now)], now)
  {
    var p := Purged(st, s, purgeAt);
    TracksPurged(st, s, h, clock, purgeAt);
    GatesMatchLog(st, p, h, purgeAt, now);
    TracksLater(st, p, h, purgeAt, now);
    TripTimesMean(st, h, |h|, now);
    var e := if MayRun(st, h, |h|, now) then Allowed(now) else Denied(now);
    LogAppend(st, h, e);
    OrderedAppend(h, e);
    NoStrike(st, h, e, IsFailure);
    NoStrike(st, h, e, IsCrash);
  }

  lemma RecordMatchesLog(st: Strategy, s: Slot, h: History, clock: int, now: int, failed: bool)
    requires st.Positive() && Tracks(st, s, h, clock) && clock <= now
    ensures Tracks(st, AfterRecord(st, s, now, failed), h + [Recorded(now, failed)], now)
  {
    var e := Recorded(now, failed);
    LogAppend(st, h, e);
    OrderedAppend(h, e);
    NoStrike(st, h, e, IsCrash);
    WindowLater(s.crashes, Strikes(st, h, IsCrash), st, clock, now);
    WindowEmpty(st, now);
    WindowPurge(s.attempts, RecordsSinceTrip(st, h, |h|), st, clock, now);
    WindowAppend(After(s.attempts, now - st.burstWindow), RecordsSinceTrip(st, h, |h|), st, now, now);
    if failed {
      StrikeMatches(st, s.failures, h, e, IsFailure, clock);
    } else {
      NoStrike(st, h, e, IsFailure);
      WindowPurge(s.failures, Strikes(st, h, IsFailure), st, clock, now);
    }
  }

  /** Any outcome is the last use from then on. It opens the circuit for the open time exactly if,
      being counted when it failed, it finds burstLimit failures newer than the burst window;
      then attempts and failures start over, otherwise it is the newest attempt. */
  lemma RecordMeans(st: Strategy, s: Slot, now: int, failed: bool)
    requires st.Positive()
    ensures var t := AfterRecord(st, s, now, failed);
            var recent := |After(s.failures, now - st.burstWindow)| + if failed then 1 else 0;
            t.last == Some(now) && t.crashes == s.crashes &&
            if recent >= st.burstLimit then t.opens == Some(now + st.openFor) && t.attempts == t.failures == []
            else t.opens == s.opens && LastOf(t.attempts) == Some(now) && |t.failures| == recent
  {
    AfterAppend(s.failures, now, now - st.burstWindow);
  }

  lemma CrashMatchesLog(st: Strategy, s: Slot, h: History, clock: int, now: int)
    requires st.Positive() && Tracks(st, s, h, clock) && clock <= now
    ensures Tracks(st, AfterCrash(st, s, now), h + [Crashed(now)], now)
  {
    var e := Crashed(now);
    LogAppend(st, h, e);
    OrderedAppend(h, e);
    NoStrike(st, h, e, IsFailure);
    WindowLater(s.failures, Strikes(st, h, IsFailure), st, clock, now);
    WindowLater(s.attempts, RecordsSinceTrip(st, h, |h|), st, clock, now);
    StrikeMatches(st, s.crashes, h, e, IsCrash, clock);
  }

  // ----- The breaker itself

  datatype Result = Result(target: string, answer: Answer)

  lemma LastUse(st: Strategy, h: History, now: int) returns (i: nat)
    requires Ordered(h) && LastOf(TimesOf(h, |h|, IsUse)).Some? && !Rested(st, h, |h|, now)
    ensures i < |h| && h[i].at == LastOf(TimesOf(h, |h|, IsUse)).value && CooledBy(st, h, i, now)
  {
    UseTimesMean(st, h, |h|, now);
    i := LastSelected(h, |h|, IsUse);
    UseIsLast(h, |h|, i);
  }

  lemma {:induction false} UseIsLast(h: History, n: nat, i: nat)
    requires Ordered(h) && n <= |h| && LastOf(TimesOf(h, n, IsUse)).Some? && i < |h| && h[i].at == LastOf(TimesOf(h, n, IsUse)).value
    ensures forall j :: 0 <= j < n && IsUse(h[j]) ==> h[j].at <= h[i].at
  {
    if n > 0 {
      assert LatestAt(h, n - 1);
      if !IsUse(h[n - 1]) {
        UseIsLast(h, n - 1, i);
      }
    }
  }

  /** An answer read off deadline and last use fits the events. */
  lemma AnswerFits(st: Strategy, h: History, now: int, later: int, a: Answer)
    requires st.Positive() && Ordered(h) && Explains(st, h, now, later, a)
    ensures Fits(st, h, now, later, a)
  {
    if Closed(st, h, |h|, now) {
      forall lo, hi | hi - lo <= st.burstWindow && now - st.openFor <= lo
        ensures FailuresIn(h, |h|, lo, hi) < st.burstLimit && CrashesIn(h, |h|, lo, hi) < st.burstLimit
      {
        if FailuresIn(h, |h|, lo, hi) >= st.burstLimit || CrashesIn(h, |h|, lo, hi) >= st.burstLimit {
          BurstShuts(st, h, lo, hi, now);
        }
      }
      WaitsIff(st, h, now);
      if !Rested(st, h, |h|, now) {
        var i := LastUse(st, h, now);
      }
    } else {
      TripTimesMean(st, h, |h|, now);
      var i :| 0 <= i < |h| && IsTrip(st, h, i) && Some(h[i].at) == LastOf(TripTimes(st, h, |h|));
      TripMeans(st, h, i);
      assert OpenedBy(st, h, i, now);
    }
  }

  /** The answer in terms of the last trip and the last use. */
  ghost predicate Explains(st: Strategy, h: History, now: int, later: int, a: Answer) {
    var trip, use := LastOf(TripTimes(st, h, |h|)), LastOf(TimesOf(h, |h|, IsUse));
    if !Closed(st, h, |h|, now) then
      trip.Some? && a == Answer(false, "circuit_open", trip, trip.value + st.openFor - later)
    else if !Rested(st, h, |h|, now) then
      use.Some? && a == Answer(false, "cooldown", None, use.value + st.cooldown - now)
    else a == Answer(true, "ok", None, 0)
  }

  /** The same in terms of the entries of the key. */
  ghost predicate ReadsOff(st: Strategy, s: Slot, now: int, later: int, a: Answer) {
    if Holding(s, now) then
      a == Answer(false, "circuit_open", Some(s.opens.value - st.openFor), s.opens.value - later)
    else if Cooling(st, s, now) then
      a == Answer(false, "cooldown", None, st.cooldown - (now - s.last.value))
    else a == Answer(true, "ok", None, 0)
  }

  function Lookup<T>(m: map<string, T>, k: string): Option<T> {
    if k in m then Some(m[k]) else None
  }

  function Slice(m: map<string, seq<int>>, k: string): seq<int> {
    if k in m then m[k] else []
  }

  class Breaker {
    const strategy: Strategy
    var lastAttempt: map<string, int>
    var attempts: map<string, seq<int>>
    var failures: map<string, seq<int>>
    var crashes: map<string, seq<int>>
    var opensAt: map<string, int>

    // Every call ever made, per key, and the time of the latest one.
    ghost var log: map<string, History>
    ghost var clock: int

    ghost function Log(k: string): History
      reads this
    {
      if k in log then log[k] else []
    }

    function SlotOf(k: string): Slot
      reads this
    {
      Slot(Lookup(lastAttempt, k), Lookup(opensAt, k), Slice(attempts, k), Slice(failures, k), Slice(crashes, k))
    }

    /** The windows of this key are in step with its log, and every decision in the log
        is the one the log before it called for. */
    ghost predicate InStep(k: string)
      reads this
    {
      Tracks(strategy, SlotOf(k), Log(k), clock) && Decided(strategy, Log(k))
    }

    ghost predicate Valid()
      reads this
    {
      strategy.Positive() && forall k: string :: InStep(k)
    }

    constructor (st: Strategy, ghost now: int)
      ensures Valid() && clock == now && strategy == Effective(st)
      ensures forall k: string :: Log(k) == []
    {
      strategy := Effective(st);
      lastAttempt, opensAt := map[], map[];
      attempts, failures, crashes := map[], map[], map[];
      log, clock := map[], now;
    }

    method PurgeLocked(key: string, at: int)
      modifies this`attempts, this`failures, this`crashes
      ensures SlotOf(key) == Purged(strategy, old(SlotOf(key)), at)
      ensures forall k: string :: k != key ==> SlotOf(k) == old(SlotOf(k))
    {
      var cutoff := at - strategy.burstWindow;
      var out := CompactInPlace(Slice(attempts, key), cutoff);
      attempts := attempts[key := out];
      out := CompactInPlace(Slice(failures, key), cutoff);
      failures := failures[key := out];
      out := CompactInPlace(Slice(crashes, key), cutoff);
      crashes := crashes[key := out];
    }

    /** Enter one event in the log, once the windows of its key reflect it. */
    ghost method Note(key: string, e: Event)
      requires strategy.Positive() && clock <= e.at
      requires forall k: string :: k != key ==> InStep(k)
      requires Tracks(strategy, SlotOf(key), Log(key) + [e], e.at) && Decided(strategy, Log(key) + [e])
      modifies this`log, this`clock
      ensures Valid() && clock == e.at
      ensures Log(key) == old(Log(key)) + [e]
      ensures forall k: string :: k != key ==> Log(k) == old(Log(k))
      ensures forall k: string :: SlotOf(k) == old(SlotOf(k))
    {
      ghost var was := clock;
      log, clock := log[key := Log(key) + [e]], e.at;
      forall k: string
        ensures InStep(k)
      {
        if k != key {
          assert old(InStep(k));
          TracksLater(strategy, SlotOf(k), Log(k), was, clock);
        }
      }
    }

    /** `purgeAt`, `now` and `later` are the three readings of the clock in one call. */
    method Allow(key: string, purgeAt: int, now: int, later: int) returns (r: Result)
      requires Valid() && clock <= purgeAt <= now <= later
      modifies this
      ensures Valid() && clock == now
      ensures r.target == key && Fits(strategy, old(Log(key)), now, later, r.answer)
      ensures Explains(strategy, old(Log(key)), now, later, r.answer)
      ensures Log(key) == old(Log(key)) + [if r.answer.allowed then Allowed(now) else Denied(now)]
      ensures SlotOf(key) == AfterAllow(strategy, old(SlotOf(key)), purgeAt, now)
      ensures forall k: string :: k != key ==> Log(k) == old(Log(k)) && SlotOf(k) == old(SlotOf(k))
    {
      assert InStep(key);
      AllowMatchesLog(strategy, SlotOf(key), Log(key), clock, purgeAt, now);
      ResultMatchesLog(key, purgeAt, now);
      r := PurgeAndDecide(key, purgeAt, now, later);
      AnswerFits(strategy, Log(key), now, later, r.answer);
      ghost var e := if r.answer.allowed then Allowed(now) else Denied(now);
      DecidedAppend(strategy, Log(key), e);
      forall k: string | k != key
        ensures InStep(k)
      {
        assert old(InStep(k));
      }
      Note(key, e);
    }

    /** What Decide reads off the purged entries is what the log says. */
    lemma ResultMatchesLog(key: string, purgeAt: int, now: int)
      requires strategy.Positive() && InStep(key) && clock <= purgeAt <= now
      ensures var p, h := Purged(strategy, SlotOf(key), purgeAt), Log(key);
              (Holding(p, now) <==> !Closed(strategy, h, |h|, now)) &&
              (Cooling(strategy, p, now) <==> !Rested(strategy, h, |h|, now)) &&
              (Holding(p, now) ==> LastOf(TripTimes(strategy, h, |h|)) == Some(p.opens.value - strategy.openFor)) &&
              p.last == LastOf(TimesOf(h, |h|, IsUse))
    {
      TracksPurged(strategy, SlotOf(key), Log(key), clock, purgeAt);
      GatesMatchLog(strategy, Purged(strategy, SlotOf(key), purgeAt), Log(key), purgeAt, now);
    }

    method PurgeAndDecide(key: string, purgeAt: int, now: int, later: int) returns (r: Result)
      modifies this`lastAttempt, this`opensAt, this`attempts, this`failures, this`crashes
      ensures r.target == key && ReadsOff(strategy, Purged(strategy, old(SlotOf(key)), purgeAt), now, later, r.answer)
      ensures SlotOf(key) == AfterAllow(strategy, old(SlotOf(key)), purgeAt, now)
      ensures forall k: string :: k != key ==> SlotOf(k) == old(SlotOf(k))
    {
      PurgeLocked(key, purgeAt);
      r := Decide(key, now, later);
    }

    /** The part of Allow after the purge. */
    method Decide(key: string, now: int, later: int) returns (r: Result)
      modifies this`lastAttempt, this`opensAt
      ensures r.target == key && ReadsOff(strategy, old(SlotOf(key)), now, later, r.answer)
      ensures SlotOf(key) ==
                if old(Holding(SlotOf(key), now)) then old(SlotOf(key))
                else if r.answer.allowed then old(SlotOf(key)).(opens := None, last := Some(now))
                else old(SlotOf(key)).(opens := None)
      ensures forall k: string :: k != key ==> SlotOf(k) == old(SlotOf(k))
    {
      if key in opensAt {
        var until := opensAt[key];
        if now < until {
          return Result(key, Answer(false, "circuit_open", Some(until - strategy.openFor), until - later));
        }
        opensAt := opensAt - {key};
      }
      if key in lastAttempt {
        var remaining := strategy.cooldown - (now - lastAttempt[key]);
        if remaining > 0 {
          return Result(key, Answer(false, "cooldown", None, remaining));
        }
      }
      lastAttempt := lastAttempt[key := now];
      return Result(key, Answer(true, "ok", None, 0));
    }

    method Record(key: string, now: int, failed: bool)
      requires Valid() && clock <= now
      modifies this
      ensures Valid() && clock == now
      ensures Log(key) == old(Log(key)) + [Recorded(now, failed)]
      ensures SlotOf(key) == AfterRecord(strategy, old(SlotOf(key)), now, failed)
      ensures forall k: string :: k != key ==> Log(k) == old(Log(k)) && SlotOf(k) == old(SlotOf(k))
    {
      assert InStep(key);
      RecordMatchesLog(strategy, SlotOf(key), Log(key), clock, now, failed);
      DecidedAppend(strategy, Log(key), Recorded(now, failed));
      CountOutcome(key, now, failed);
      forall k: string | k != key
        ensures InStep(k)
      {
        assert old(InStep(k));
      }
      Note(key, Recorded(now, failed));
    }

    method CountOutcome(key: string, now: int, failed: bool)
      modifies this`lastAttempt, this`attempts, this`failures, this`opensAt
      ensures lastAttempt == old(lastAttempt)[key := now]
      ensures SlotOf(key) == AfterRecord(strategy, old(SlotOf(key)), now, failed)
      ensures forall k: string :: k != key ==> SlotOf(k) == old(SlotOf(k))
    {
      lastAttempt := lastAttempt[key := now];
      var fails := Slice(failures, key);
      if failed {
        fails := fails + [now];
      }
      var cutoff := now - strategy.burstWindow;
      var out := CompactInPlace(fails, cutoff);
      var purged := CompactInPlace(Slice(attempts, key), cutoff);
      if |out| >= strategy.burstLimit {
        opensAt := opensAt[key := now + strategy.openFor];
        attempts := attempts[key := []];
        failures := failures[key := []];
      } else {
        attempts := attempts[key := purged + [now]];
        failures := failures[key := out];
      }
    }

    method RecordCrash(key: string, now: int)
      requires Valid() && clock <= now
      modifies this
      ensures Valid() && clock == now
      ensures Log(key) == old(Log(key)) + [Crashed(now)]
      ensures SlotOf(key) == AfterCrash(strategy, old(SlotOf(key)), now)
      ensures forall k: string :: k != key ==> Log(k) == old(Log(k)) && SlotOf(k) == old(SlotOf(k))
    {
      assert InStep(key);
      CrashMatchesLog(strategy, SlotOf(key), Log(key), clock, now);
      DecidedAppend(strategy, Log(key), Crashed(now));
      CountCrash(key, now);
      forall k: string | k != key
        ensures InStep(k)
      {
        assert old(InStep(k));
      }
      Note(key, Crashed(now));
    }

    method CountCrash(key: string, now: int)
      modifies this`crashes, this`opensAt
      ensures SlotOf(key) == AfterCrash(strategy, old(SlotOf(key)), now)
      ensures forall k: string :: k != key ==> SlotOf(k) == old(SlotOf(k))
    {
      var out := CompactInPlace(Slice(crashes, key), now - strategy.burstWindow);
      var window := out + [now];
      crashes := crashes[key := window];
      if |window| >= strategy.burstLimit {
        opensAt := opensAt[key := now + strategy.openFor];
        crashes := crashes[key := []];
      }
    }
  }
}
