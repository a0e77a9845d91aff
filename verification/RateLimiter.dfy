/** Sliding-window rate limiter with lazy eviction of idle keys, as it runs: a map of hits,
    filtered in place. Its calls are remembered, and module HitLog says what they promise. */
module RateLimiter {
  import opened Windows
  import opened HitLog

  /** A list of past hits that a sweep at `now` would evict. */
  ghost predicate Evictable(v: seq<int>, now: int, window: int, sweepEv: int) {
    Sorted(v) && (forall i :: 0 <= i < |v| ==> v[i] <= now) && Idle(v, now - window * sweepEv)
  }

  ghost predicate LongHorizon(window: int, sweepEv: int) {
    1 <= sweepEv || window <= 0 || (window == 1 && sweepEv == 0)
  }

  lemma LongHorizonIsSafe(v: seq<int>, now: int, window: int, sweepEv: int)
    requires LongHorizon(window, sweepEv) && Evictable(v, now, window, sweepEv)
    ensures After(v, now - window) == []
  {
    forall i | 0 <= i < |v|
      ensures v[i] <= now - window
    {
      SortedPair(v, i, |v| - 1);
      if 0 < window && 1 <= sweepEv {
        assert window * sweepEv >= window;
      }
    }
    AfterUpToNothing(v, |v|, now - window);
  }

  /** Evicting an idle key never drops a hit that still counts, exactly when the
      eviction horizon is not shorter than the window. */
  lemma EvictionIsSafeIff(window: int, sweepEv: int)
    ensures (forall v: seq<int>, now: int :: Evictable(v, now, window, sweepEv) ==> After(v, now - window) == [])
            <==> LongHorizon(window, sweepEv)
  {
    if LongHorizon(window, sweepEv) {
      forall v: seq<int>, now: int | Evictable(v, now, window, sweepEv)
        ensures After(v, now - window) == []
      {
        LongHorizonIsSafe(v, now, window, sweepEv);
      }
    } else {
      var v := [if sweepEv == 0 then -1 else 0];
      if sweepEv < 0 {
        assert window * sweepEv < 0;
      } else {
        assert window * sweepEv == 0;
      }
      assert Evictable(v, 0, window, sweepEv);
      AfterAppend([], v[0], 0 - window);
      assert [] + [v[0]] == v;
    }
  }

  class RateLimiter {
    const limit: int
    const window: int
    const sweepEv: int
    var hits: map<string, seq<int>>
    var lastSweep: int

    // The reading the limiter was made at, and every call since.
    ghost const start: int
    ghost var calls: seq<Call>

    ghost function Cfg(): Config {
      Config(limit, window, sweepEv)
    }

    function Kept(k: string): seq<int>
      reads this
    {
      if k in hits then hits[k] else []
    }

    /** What the calls so far say of a key. */
    ghost function StateOf(k: string): State
      reads this
    {
      Run(Cfg(), start, calls, |calls|, k)
    }

    /** Every allowed call of the key since its last reset. */
    ghost function Log(k: string): seq<int>
      reads this
    {
      StateOf(k).log
    }

    ghost predicate InStep(k: string)
      reads this
    {
      Tells(k, StateOf(k))
    }

    ghost predicate Valid()
      reads this
    {
      forall k: string :: InStep(k)
    }

    constructor (limit: int, window: int, now: int)
      ensures Valid() && this.limit == limit && this.window == window && sweepEv == 3
      ensures hits == map[] && lastSweep == now && start == now && calls == []
    {
      this.limit, this.window, sweepEv := limit, window, 3;
      hits, lastSweep := map[], now;
      start, calls := now, [];
    }

    /** Drop every idle key, in whatever order the map yields them. */
    method Sweep(now: int)
      modifies this`hits, this`lastSweep
      ensures lastSweep == now
      ensures forall k :: k in hits <==> k in old(hits) && !Idle(old(hits)[k], now - window * sweepEv)
      ensures forall k :: k in hits ==> hits[k] == old(hits)[k]
    {
      var evictCutoff := now - window * sweepEv;
      var left := hits.Keys;
      while left != {}
        invariant left <= old(hits.Keys)
        invariant forall k :: k in hits <==> k in old(hits) && (k in left || !Idle(old(hits)[k], evictCutoff))
        invariant forall k :: k in hits ==> hits[k] == old(hits)[k]
        decreases |left|
      {
        var k :| k in left;
        left := left - {k};
        if Idle(hits[k], evictCutoff) {
          hits := hits - {k};
        }
      }
      lastSweep := now;
    }

    /** `now` is read before the lock is taken. A call whose reading is in time is decided as
        the log of allowed calls asks for. */
    method Allow(key: string, now: int) returns (ok: bool)
      requires Valid()
      modifies this
      ensures Valid() && calls == old(calls) + [HitLog.Allow(key, now)]
      ensures ok <==> Allows(Cfg(), old(StateOf(key)), now)
      ensures limit <= 0 ==> ok
      ensures 0 < limit && InTime(Cfg(), old(StateOf(key)), now) ==>
                (ok <==> Admits(limit, window, old(Log(key)), now)) &&
                (!ok <==> CountIn(old(Log(key)), now - window, now) == limit)
      ensures 0 < limit ==> Log(key) == if ok then old(Log(key)) + [now] else old(Log(key))
      ensures forall k: string :: k != key ==> Log(k) == old(Log(k))
      ensures SweptOthers(key, now, old(hits), old(lastSweep))
    {
      ghost var s := StateOf(key);
      RunKeeps(Cfg(), start, calls, |calls|, key);
      if 0 < limit && InTime(Cfg(), s, now) {
        InTimeDecides(Cfg(), s, now);
      }
      ok := Decide(key, now);
      if 0 < limit {
        OwnStep(Cfg(), s, key, now);
      }
      forall k: string | k != key
        ensures Log(k) == old(Log(k))
      {
        OtherStep(Cfg(), old(StateOf(k)), key, now, k);
      }
    }

    /** Decide on the map, and remember the call. */
    method Decide(key: string, now: int) returns (ok: bool)
      requires Valid()
      modifies this
      ensures Valid() && calls == old(calls) + [HitLog.Allow(key, now)]
      ensures ok <==> Allows(Cfg(), old(StateOf(key)), now)
      ensures forall k: string :: StateOf(k) == Step(Cfg(), old(StateOf(k)), HitLog.Allow(key, now), k)
      ensures SweptOthers(key, now, old(hits), old(lastSweep))
    {
      ghost var c := HitLog.Allow(key, now);
      assert InStep(key);
      ok := SweepAndAdmit(key, now);
      if 0 < limit {
        OwnStep(Cfg(), StateOf(key), key, now);
      }
      assert Tells(key, Step(Cfg(), StateOf(key), c, key));
      forall k: string | k != key
        ensures Tells(k, Step(Cfg(), StateOf(k), c, k))
      {
        assert old(InStep(k));
        OtherStep(Cfg(), StateOf(k), key, now, k);
      }
      Note(c);
    }

    /** Of the other keys exactly the idle ones are gone, if a sweep was due. */
    ghost predicate SweptOthers(key: string, now: int, before: map<string, seq<int>>, swept: int)
      reads this
    {
      var sweeps := 0 < limit && now - swept > window;
      lastSweep == (if sweeps then now else swept) &&
      (forall k :: k != key ==>
        (k in hits <==> k in before && !(sweeps && Idle(before[k], now - Cfg().Horizon()))) &&
        (k in hits ==> hits[k] == before[k]))
    }

    /** The call on the map of hits. */
    method SweepAndAdmit(key: string, now: int) returns (ok: bool)
      modifies this`hits, this`lastSweep
      ensures limit <= 0 ==> ok && hits == old(hits) && lastSweep == old(lastSweep)
      ensures SweptOthers(key, now, old(hits), old(lastSweep))
      ensures var sweeps := now - old(lastSweep) > window;
              var kept := if sweeps && Idle(old(Kept(key)), now - Cfg().Horizon()) then [] else old(Kept(key));
              var keep := After(kept, now - window);
              0 < limit ==> (ok <==> |keep| < limit) && Kept(key) == if ok then keep + [now] else keep
    {
      if limit <= 0 {
        return true;
      }
      if now - lastSweep > window {
        Sweep(now);
      }
      var keep := CompactInPlace(Kept(key), now - window);
      if |keep| >= limit {
        hits := hits[key := keep];
        return false;
      }
      keep := keep + [now];
      hits := hits[key := keep];
      return true;
    }

    ghost predicate Tells(k: string, s: State)
      reads this
    {
      Kept(k) == s.kept && lastSweep == s.lastSweep
    }

    /** Remember a call, once the map reflects it for every key. */
    ghost method Note(c: Call)
      requires forall k: string :: Tells(k, Step(Cfg(), StateOf(k), c, k))
      modifies this`calls
      ensures Valid() && calls == old(calls) + [c]
      ensures forall k: string :: StateOf(k) == Step(Cfg(), old(StateOf(k)), c, k)
    {
      calls := calls + [c];
      forall k: string
        ensures StateOf(k) == Step(Cfg(), old(StateOf(k)), c, k) && InStep(k)
      {
        OneMoreCall(Cfg(), start, old(calls), c, k);
        assert old(Tells(k, Step(Cfg(), StateOf(k), c, k)));
      }
    }

    method Reset(key: string)
      requires Valid()
      modifies this
      ensures Valid() && calls == old(calls) + [HitLog.Reset(key)] && lastSweep == old(lastSweep)
      ensures Log(key) == [] && hits == old(hits) - {key}
      ensures forall k: string :: k != key ==> Log(k) == old(Log(k))
    {
      hits := hits - {key};
      forall k: string
        ensures Tells(k, Step(Cfg(), StateOf(k), HitLog.Reset(key), k))
      {
        assert old(InStep(k));
      }
      Note(HitLog.Reset(key));
    }

    /** At any time, in every interval of one window, less the lateness of the key's own
        readings, at most `limit` calls of a key since its last reset were allowed, as long as
        no reading came behind others by more than the eviction horizon less the window. */
    lemma WindowBound(key: string, x: int)
      requires Valid() && 0 < limit && StateOf(key).behind <= window * sweepEv - window
      ensures CountIn(Log(key), x - (window - StateOf(key).late), x) <= limit
    {
      RunKeeps(Cfg(), start, calls, |calls|, key);
      IntervalBound(Cfg(), StateOf(key), x);
    }
  }
}
