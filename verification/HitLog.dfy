/** What the rate limiter promises, stated over runs of calls from any number of keys. The
    clock is read before the lock is taken, so readings need not come in order: `late` is how
    far a key's reading ever came behind an earlier one of the same key, `behind` how far any
    reading came behind an earlier one of any key. */
module HitLog {
  import opened Options
  import opened Windows

  datatype Config = Config(limit: int, window: int, sweepEv: int) {
    function Horizon(): int {
      window * sweepEv
    }
  }

  datatype Call = Allow(key: string, now: int) | Reset(key: string)

  /** What the limiter holds for one key, and when it last swept; and what it forgets: the
      allowed calls of the key since its last reset, the newest reading of all calls and of the
      key's own, and how late readings came. */
  datatype State = State(kept: seq<int>, log: seq<int>, lastSweep: int, newest: int, behind: int, own: Option<int>, late: int)

  function Start(now: int): State {
    State([], [], now, now, 0, None, 0)
  }

  function Max(a: int, b: int): int {
    if a < b then b else a
  }

  /** An entry is evicted when it is empty or its last hit is too old. */
  predicate Idle(v: seq<int>, cutoff: int) {
    |v| == 0 || v[|v| - 1] < cutoff
  }

  /** Take note of a reading, of this key's call or of another's. */
  function Read(s: State, mine: bool, now: int): State {
    var t := s.(newest := Max(s.newest, now), behind := Max(s.behind, s.newest - now));
    if !mine then t
    else if s.own == None then t.(own := Some(now))
    else t.(own := Some(Max(s.own.value, now)), late := Max(s.late, s.own.value - now))
  }

  function Swept(cfg: Config, s: State, now: int): State {
    if now - s.lastSweep > cfg.window then
      s.(kept := if Idle(s.kept, now - cfg.Horizon()) then [] else s.kept, lastSweep := now)
    else s
  }

  function Surviving(cfg: Config, s: State, now: int): seq<int> {
    After(s.kept, now - cfg.window)
  }

  function Admitted(cfg: Config, s: State, now: int): State {
    var keep := Surviving(cfg, s, now);
    if |keep| >= cfg.limit then s.(kept := keep) else s.(kept := keep + [now], log := s.log + [now])
  }

  /** What a call does to key `k`. */
  function Step(cfg: Config, s: State, c: Call, k: string): State {
    match c
    case Allow(key, now) =>
      if cfg.limit <= 0 then s
      else
        var t := Swept(cfg, Read(s, key == k, now), now);
        if key == k then Admitted(cfg, t, now) else t
    case Reset(key) => if key == k then s.(kept := [], log := []) else s
  }

  /** Whether a call of the key is allowed. */
  predicate Allows(cfg: Config, s: State, now: int) {
    cfg.limit <= 0 || |Surviving(cfg, Swept(cfg, Read(s, true, now), now), now)| < cfg.limit
  }

  function Run(cfg: Config, start: int, calls: seq<Call>, n: nat, k: string): State
    requires n <= |calls|
  {
    if n == 0 then Start(start) else Step(cfg, Run(cfg, start, calls, n - 1, k), calls[n - 1], k)
  }

  lemma {:induction false} RunPrefix(cfg: Config, start: int, calls: seq<Call>, more: seq<Call>, n: nat, k: string)
    requires n <= |calls| && calls <= more
    ensures Run(cfg, start, more, n, k) == Run(cfg, start, calls, n, k)
  {
    if n > 0 {
      RunPrefix(cfg, start, calls, more, n - 1, k);
    }
  }

  lemma OneMoreCall(cfg: Config, start: int, calls: seq<Call>, c: Call, k: string)
    ensures Run(cfg, start, calls + [c], |calls| + 1, k) == Step(cfg, Run(cfg, start, calls, |calls|, k), c, k)
  {
    RunPrefix(cfg, start, calls, calls + [c], |calls|, k);
  }

  /** What a call leaves stored for another key, and for its own. */
  lemma OtherStep(cfg: Config, s: State, key: string, now: int, k: string)
    requires k != key
    ensures var t := Step(cfg, s, Allow(key, now), k);
            var sweeps := 0 < cfg.limit && now - s.lastSweep > cfg.window;
            t.log == s.log && t.lastSweep == (if sweeps then now else s.lastSweep) &&
            t.kept == if sweeps && Idle(s.kept, now - cfg.Horizon()) then [] else s.kept
  {
  }

  lemma OwnStep(cfg: Config, s: State, key: string, now: int)
    requires 0 < cfg.limit
    ensures var t := Step(cfg, s, Allow(key, now), key);
            var sweeps := now - s.lastSweep > cfg.window;
            var kept := if sweeps && Idle(s.kept, now - cfg.Horizon()) then [] else s.kept;
            var keep := After(kept, now - cfg.window);
            (Allows(cfg, s, now) <==> |keep| < cfg.limit) && t.lastSweep == (if sweeps then now else s.lastSweep) &&
            t.kept == (if Allows(cfg, s, now) then keep + [now] else keep) &&
            t.log == if Allows(cfg, s, now) then s.log + [now] else s.log
  {
  }

  // ----- What the remembered quantities are

  /** The reading of call `i`, if it is one of key `k`. */
  ghost predicate Reads(calls: seq<Call>, i: nat, k: string, t: int)
    requires i < |calls|
  {
    calls[i] == Allow(k, t)
  }

  /** `own` is the newest reading of the key's calls. */
  lemma {:induction false} OwnMeans(cfg: Config, start: int, calls: seq<Call>, n: nat, k: string)
    requires n <= |calls| && 0 < cfg.limit
    ensures var own := Run(cfg, start, calls, n, k).own;
            (forall i, t :: 0 <= i < n && Reads(calls, i, k, t) ==> own.Some? && t <= own.value) &&
            (own.Some? ==> exists i :: 0 <= i < n && Reads(calls, i, k, own.value))
  {
    if n > 0 {
      OwnMeans(cfg, start, calls, n - 1, k);
      var was, own := Run(cfg, start, calls, n - 1, k).own, Run(cfg, start, calls, n, k).own;
      if own.Some? {
        if own == was {
          var i :| 0 <= i < n - 1 && Reads(calls, i, k, was.value);
        } else {
          assert Reads(calls, n - 1, k, own.value);
        }
      }
    }
  }

  /** `late` is how far a reading of the key ever came behind an earlier one of the key. */
  lemma {:induction false} LateMeans(cfg: Config, start: int, calls: seq<Call>, n: nat, k: string)
    requires n <= |calls| && 0 < cfg.limit
    ensures var late := Run(cfg, start, calls, n, k).late;
            0 <= late &&
            (forall i, j, s, t :: 0 <= i < j < n && Reads(calls, i, k, s) && Reads(calls, j, k, t) ==> s - t <= late) &&
            (late > 0 ==> exists i, j, s, t :: 0 <= i < j < n && Reads(calls, i, k, s) && Reads(calls, j, k, t) && s - t == late)
  {
    if n > 0 {
      LateMeans(cfg, start, calls, n - 1, k);
      OwnMeans(cfg, start, calls, n - 1, k);
      var was, now := Run(cfg, start, calls, n - 1, k), Run(cfg, start, calls, n, k);
      if now.late > was.late {
        var i :| 0 <= i < n - 1 && Reads(calls, i, k, was.own.value);
        assert Reads(calls, n - 1, k, calls[n - 1].now);
      } else if now.late > 0 {
        var i, j, s, t :| 0 <= i < j < n - 1 && Reads(calls, i, k, s) && Reads(calls, j, k, t) && s - t == was.late;
      }
    }
  }

  /** `newest` is the newest reading of all calls, or the start. */
  lemma {:induction false} NewestMeans(cfg: Config, start: int, calls: seq<Call>, n: nat, k: string)
    requires n <= |calls| && 0 < cfg.limit
    ensures var newest := Run(cfg, start, calls, n, k).newest;
            start <= newest && (forall i :: 0 <= i < n && calls[i].Allow? ==> calls[i].now <= newest) &&
            (newest == start || exists i :: 0 <= i < n && calls[i].Allow? && calls[i].now == newest)
  {
    if n > 0 {
      NewestMeans(cfg, start, calls, n - 1, k);
    }
  }

  /** Reading `j` comes behind no earlier one, nor the start, by more than `d`. */
  ghost predicate WithinOf(start: int, calls: seq<Call>, j: nat, d: int)
    requires j < |calls| && calls[j].Allow?
  {
    start - calls[j].now <= d && forall i :: 0 <= i < j && calls[i].Allow? ==> calls[i].now - calls[j].now <= d
  }

  /** It does by exactly `d`. */
  ghost predicate CameBehind(start: int, calls: seq<Call>, j: nat, d: int)
    requires j < |calls| && calls[j].Allow?
  {
    start - calls[j].now == d || exists i :: 0 <= i < j && calls[i].Allow? && calls[i].now - calls[j].now == d
  }

  lemma ReadingBehind(cfg: Config, start: int, calls: seq<Call>, n: nat, k: string)
    requires n < |calls| && 0 < cfg.limit && calls[n].Allow?
    ensures var d := Run(cfg, start, calls, n, k).newest - calls[n].now;
            WithinOf(start, calls, n, d) && CameBehind(start, calls, n, d)
  {
    NewestMeans(cfg, start, calls, n, k);
  }

  lemma BehindStep(cfg: Config, s: State, c: Call, k: string)
    requires 0 < cfg.limit
    ensures Step(cfg, s, c, k).behind == if c.Allow? then Max(s.behind, s.newest - c.now) else s.behind
  {
  }

  /** `behind` is how far a reading of any key ever came behind an earlier one, or the start. */
  lemma {:induction false} BehindMeans(cfg: Config, start: int, calls: seq<Call>, n: nat, k: string)
    requires n <= |calls| && 0 < cfg.limit
    ensures var behind := Run(cfg, start, calls, n, k).behind;
            0 <= behind && (forall j :: 0 <= j < n && calls[j].Allow? ==> WithinOf(start, calls, j, behind)) &&
            (behind > 0 ==> exists j :: 0 <= j < n && calls[j].Allow? && CameBehind(start, calls, j, behind))
  {
    if n > 0 {
      BehindMeans(cfg, start, calls, n - 1, k);
      var s := Run(cfg, start, calls, n - 1, k);
      BehindStep(cfg, s, calls[n - 1], k);
      if calls[n - 1].Allow? {
        ReadingBehind(cfg, start, calls, n - 1, k);
        var d := s.newest - calls[n - 1].now;
        forall j | 0 <= j < n && calls[j].Allow?
          ensures WithinOf(start, calls, j, Max(s.behind, d))
        {
          assert j < n - 1 ==> WithinOf(start, calls, j, s.behind);
        }
      }
    }
  }

  // ----- Lists whose entries may come late

  ghost predicate NearAt(s: seq<int>, j: nat, d: int)
    requires j < |s|
  {
    forall i :: 0 <= i < j ==> s[i] <= s[j] + d
  }

  /** No entry exceeds a later one by more than `d`. */
  ghost predicate Near(s: seq<int>, d: int) {
    forall j :: 0 <= j < |s| ==> NearAt(s, j, d)
  }

  lemma {:induction false} AfterUpToPicks(s: seq<int>, n: nat, c: int)
    requires n <= |s|
    ensures |AfterUpTo(s, n, c)| <= n
    ensures forall k :: 0 <= k < |AfterUpTo(s, n, c)| ==>
              c < AfterUpTo(s, n, c)[k] && exists i :: 0 <= i < n && s[i] == AfterUpTo(s, n, c)[k]
  {
    if n > 0 {
      AfterUpToPicks(s, n - 1, c);
    }
  }

  lemma {:induction false} AfterUpToNear(s: seq<int>, n: nat, c: int, d: int)
    requires n <= |s| && Near(s, d)
    ensures Near(AfterUpTo(s, n, c), d)
  {
    if n > 0 {
      AfterUpToNear(s, n - 1, c, d);
      AfterUpToPicks(s, n - 1, c);
      var rest, r := AfterUpTo(s, n - 1, c), AfterUpTo(s, n, c);
      assert NearAt(s, n - 1, d);
      forall j | 0 <= j < |r|
        ensures NearAt(r, j, d)
      {
        assert j < |rest| ==> NearAt(rest, j, d);
      }
    }
  }

  lemma {:induction false} AfterUpToShrinks(s: seq<int>, n: nat, c: int, d: int)
    requires n <= |s| && c <= d
    ensures |AfterUpTo(s, n, d)| <= |AfterUpTo(s, n, c)|
  {
    if n > 0 {
      AfterUpToShrinks(s, n - 1, c, d);
    }
  }

  lemma {:induction false} CountIsAtMostAfter(s: seq<int>, n: nat, lo: int, hi: int)
    requires n <= |s|
    ensures CountUpTo(s, n, lo, hi) <= |AfterUpTo(s, n, lo)|
  {
    if n > 0 {
      CountIsAtMostAfter(s, n - 1, lo, hi);
    }
  }

  ghost predicate ThinAt(log: seq<int>, k: nat, limit: int, span: int)
    requires k < |log|
  {
    |AfterUpTo(log, k, log[k] - span)| < limit
  }

  /** Every call was allowed when fewer than `limit` of those before it were newer than `span`
      before it. */
  ghost predicate Thin(log: seq<int>, limit: int, span: int) {
    forall k :: 0 <= k < |log| ==> ThinAt(log, k, limit, span)
  }

  lemma ThinLess(log: seq<int>, limit: int, span: int, less: int)
    requires Thin(log, limit, span) && less <= span
    ensures Thin(log, limit, less)
  {
    forall k | 0 <= k < |log|
      ensures ThinAt(log, k, limit, less)
    {
      assert ThinAt(log, k, limit, span);
      AfterUpToShrinks(log, k, log[k] - span, log[k] - less);
    }
  }

  lemma ThinAppend(log: seq<int>, now: int, limit: int, span: int)
    requires Thin(log, limit, span) && |After(log, now - span)| < limit
    ensures Thin(log + [now], limit, span)
  {
    var more := log + [now];
    forall k | 0 <= k < |more|
      ensures ThinAt(more, k, limit, span)
    {
      AfterUpToPrefix(more, log, k, more[k] - span);
      assert k < |log| ==> ThinAt(log, k, limit, span);
    }
  }

  /** Then no interval of that length holds more than `limit`, whatever the order. */
  lemma {:induction false} ThinBounds(log: seq<int>, n: nat, limit: int, span: int, x: int)
    requires n <= |log| && Thin(log, limit, span) && 0 <= limit
    ensures CountUpTo(log, n, x - span, x) <= limit
  {
    if n > 0 {
      ThinBounds(log, n - 1, limit, span, x);
      if x - span < log[n - 1] <= x {
        assert ThinAt(log, n - 1, limit, span);
        CountIsAtMostAfter(log, n - 1, x - span, x);
        AfterUpToShrinks(log, n - 1, log[n - 1] - span, x - span);
      }
    }
  }

  lemma AgreeFiltered(a: seq<int>, b: seq<int>, cutoff: int, from: int)
    requires Agree(a, b, from) && cutoff <= from
    ensures Agree(After(a, cutoff), b, from)
  {
    AfterAfter(a, cutoff, from);
  }

  // ----- What every run keeps

  /** From here on the stored hits are the logged ones. */
  function KnownFrom(cfg: Config, s: State): int
    requires s.own.Some?
  {
    Max(s.own.value - cfg.window, s.newest - cfg.Horizon() + s.late)
  }

  /** The stored hits stand for the log from `from` on, with no entry later than `late`. */
  ghost predicate Stands(kept: seq<int>, log: seq<int>, from: int, late: int, newest: int) {
    && Agree(kept, log, from) && Near(kept, late)
    && (forall i :: 0 <= i < |kept| ==> kept[i] <= newest) && (forall i :: 0 <= i < |log| ==> log[i] <= newest)
  }

  ghost predicate Well(cfg: Config, s: State) {
    0 <= s.behind && 0 <= s.late <= s.behind &&
    if s.own == None then s.kept == [] && s.log == [] && s.late == 0
    else s.own.value <= s.newest && |s.kept| <= cfg.limit && Stands(s.kept, s.log, KnownFrom(cfg, s), s.late, s.own.value)
  }

  /** While no reading comes behind by more than the eviction horizon less the window. */
  ghost predicate StaysThin(cfg: Config, s: State) {
    s.behind <= cfg.Horizon() - cfg.window ==> Thin(s.log, cfg.limit, cfg.window - s.late)
  }

  lemma NearLater(kept: seq<int>, late: int, later: int)
    requires Near(kept, late) && late <= later
    ensures Near(kept, later)
  {
    forall j | 0 <= j < |kept|
      ensures NearAt(kept, j, later)
    {
      assert NearAt(kept, j, late);
    }
  }

  lemma ReadKeeps(cfg: Config, s: State, mine: bool, now: int)
    requires Well(cfg, s) && StaysThin(cfg, s) && 0 < cfg.limit
    ensures Well(cfg, Read(s, mine, now)) && StaysThin(cfg, Read(s, mine, now))
  {
    var t := Read(s, mine, now);
    if s.own.Some? {
      AgreeLater(s.kept, s.log, KnownFrom(cfg, s), KnownFrom(cfg, t));
      NearLater(s.kept, s.late, t.late);
    }
    if t.behind <= cfg.Horizon() - cfg.window {
      ThinLess(s.log, cfg.limit, cfg.window - s.late, cfg.window - t.late);
    }
  }

  /** A sweep forgets no hit beyond where the list is known from. */
  lemma SweepKeeps(cfg: Config, s: State, now: int)
    requires Well(cfg, s) && StaysThin(cfg, s) && now <= s.newest && 0 < cfg.limit
    ensures Well(cfg, Swept(cfg, s, now)) && StaysThin(cfg, Swept(cfg, s, now))
  {
    if Swept(cfg, s, now).kept != s.kept {
      var c := KnownFrom(cfg, s);
      assert NearAt(s.kept, |s.kept| - 1, s.late);
      AfterUpToNothing(s.kept, |s.kept|, c);
      AgreeFiltered(s.kept, s.log, c, c);
    }
  }

  lemma FilterStands(kept: seq<int>, log: seq<int>, from: int, late: int, newest: int, cutoff: int)
    requires Stands(kept, log, from, late, newest) && cutoff <= from
    ensures Stands(After(kept, cutoff), log, from, late, newest) && |After(kept, cutoff)| <= |kept|
  {
    AgreeFiltered(kept, log, cutoff, from);
    AfterUpToPicks(kept, |kept|, cutoff);
    AfterUpToNear(kept, |kept|, cutoff, late);
  }

  lemma AppendStands(kept: seq<int>, log: seq<int>, from: int, late: int, newest: int, now: int)
    requires Stands(kept, log, from, late, newest) && now <= newest <= now + late
    ensures Stands(kept + [now], log + [now], from, late, newest)
  {
    AgreeAppend(kept, log, now, from);
    var more := kept + [now];
    forall j | 0 <= j < |more|
      ensures NearAt(more, j, late)
    {
      assert j < |kept| ==> NearAt(kept, j, late);
    }
  }

  lemma AppendThin(kept: seq<int>, log: seq<int>, from: int, now: int, limit: int, span: int)
    requires Agree(kept, log, from) && |kept| < limit && Thin(log, limit, span) && from <= now - span
    ensures Thin(log + [now], limit, span)
  {
    AgreeLater(kept, log, from, now - span);
    AfterUpToPicks(kept, |kept|, now - span);
    ThinAppend(log, now, limit, span);
  }

  lemma AdmitKeeps(cfg: Config, s: State, now: int)
    requires Well(cfg, s) && StaysThin(cfg, s) && 0 < cfg.limit && s.own.Some?
    requires now <= s.own.value <= now + s.late && s.newest - now <= s.behind
    ensures Well(cfg, Admitted(cfg, s, now)) && StaysThin(cfg, Admitted(cfg, s, now))
  {
    var keep, c := Surviving(cfg, s, now), KnownFrom(cfg, s);
    FilterStands(s.kept, s.log, c, s.late, s.own.value, now - cfg.window);
    if |keep| < cfg.limit {
      AppendStands(keep, s.log, c, s.late, s.own.value, now);
      if s.behind <= cfg.Horizon() - cfg.window {
        AppendThin(keep, s.log, c, now, cfg.limit, cfg.window - s.late);
      }
    }
  }

  lemma StepKeeps(cfg: Config, s: State, c: Call, k: string)
    requires Well(cfg, s) && StaysThin(cfg, s)
    ensures Well(cfg, Step(cfg, s, c, k)) && StaysThin(cfg, Step(cfg, s, c, k))
  {
    if c.Allow? && 0 < cfg.limit {
      var t := Read(s, c.key == k, c.now);
      ReadKeeps(cfg, s, c.key == k, c.now);
      SweepKeeps(cfg, t, c.now);
      if c.key == k {
        AdmitKeeps(cfg, Swept(cfg, t, c.now), c.now);
      }
    }
  }

  lemma {:induction false} RunKeeps(cfg: Config, start: int, calls: seq<Call>, n: nat, k: string)
    requires n <= |calls|
    ensures Well(cfg, Run(cfg, start, calls, n, k)) && StaysThin(cfg, Run(cfg, start, calls, n, k))
  {
    if n > 0 {
      RunKeeps(cfg, start, calls, n - 1, k);
      StepKeeps(cfg, Run(cfg, start, calls, n - 1, k), calls[n - 1], k);
    }
  }

  /** In every run, for every key: no interval as long as the window, less the lateness of the
      key's own readings, holds more than `limit` of its allowed calls, as long as no reading
      of any key comes behind by more than the eviction horizon less the window. */
  lemma IntervalBound(cfg: Config, s: State, x: int)
    requires 0 < cfg.limit && Well(cfg, s) && StaysThin(cfg, s) && s.behind <= cfg.Horizon() - cfg.window
    ensures CountIn(s.log, x - (cfg.window - s.late), x) <= cfg.limit
  {
    ThinBounds(s.log, |s.log|, cfg.limit, cfg.window - s.late, x);
  }

  /** The log answers alone: fewer than `limit` allowed calls in (now - window, now]. */
  predicate Admits(limit: int, window: int, log: seq<int>, now: int) {
    CountIn(log, now - window, now) < limit
  }

  /** The reading is not behind an earlier one of its key, nor behind others by so much that
      the key may have been evicted too early. */
  predicate InTime(cfg: Config, s: State, now: int) {
    var t := Read(s, true, now);
    t.own == Some(now) && t.newest - now + t.late <= cfg.Horizon() - cfg.window
  }

  /** A call in time is decided exactly as the complete log asks for, whatever came before:
      allowed iff fewer than `limit`, denied iff exactly `limit`, allowed calls are in the
      window. */
  lemma InTimeDecides(cfg: Config, s: State, now: int)
    requires Well(cfg, s) && StaysThin(cfg, s) && 0 < cfg.limit && InTime(cfg, s, now)
    ensures Allows(cfg, s, now) <==> Admits(cfg.limit, cfg.window, s.log, now)
    ensures !Allows(cfg, s, now) <==> CountIn(s.log, now - cfg.window, now) == cfg.limit
  {
    ReadKeeps(cfg, s, true, now);
    SweepKeeps(cfg, Read(s, true, now), now);
    var t := Swept(cfg, Read(s, true, now), now);
    AgreeLater(t.kept, s.log, KnownFrom(cfg, t), now - cfg.window);
    AfterUpToPicks(t.kept, |t.kept|, now - cfg.window);
    CountIsAfter(s.log, now - cfg.window, now);
  }

  // ----- A limit of one

  /** The stored hit is the last allowed call, unless that had expired when a sweep took it. */
  ghost predicate LastOnly(kept: seq<int>, log: seq<int>, expiry: int) {
    && (forall i :: 0 <= i < |log| ==> log[i] <= log[|log| - 1])
    && (kept == [] || (log != [] && kept == [log[|log| - 1]]))
    && (kept == [] && log != [] ==> log[|log| - 1] < expiry)
  }

  ghost predicate One(cfg: Config, s: State) {
    && 0 <= s.behind && LastOnly(s.kept, s.log, s.newest - cfg.Horizon())
    && (s.behind <= cfg.Horizon() - cfg.window ==> Thin(s.log, 1, cfg.window))
  }

  lemma FilterOne(x: int, cutoff: int)
    ensures After([x], cutoff) == if x > cutoff then [x] else []
  {
    AfterAppend([], x, cutoff);
    assert [] + [x] == [x];
  }

  /** Whatever is filtered out is older than the window, and so is the whole log then. */
  lemma FilterLast(kept: seq<int>, log: seq<int>, expiry: int, cutoff: int)
    requires LastOnly(kept, log, expiry) && expiry <= cutoff + 1
    ensures After(kept, cutoff) == kept || After(kept, cutoff) == []
    ensures After(kept, cutoff) == [] ==> forall i :: 0 <= i < |log| ==> log[i] <= cutoff
  {
    if kept != [] {
      FilterOne(kept[0], cutoff);
    }
  }

  lemma AdmitKeepsOne(cfg: Config, s: State, now: int)
    requires One(cfg, s) && cfg.limit == 1 && 0 < cfg.window && now <= s.newest && s.newest - now <= s.behind
    requires s.behind <= cfg.Horizon() - cfg.window
    ensures One(cfg, Admitted(cfg, s, now))
  {
    FilterLast(s.kept, s.log, s.newest - cfg.Horizon(), now - cfg.window);
    if Surviving(cfg, s, now) == [] {
      AfterUpToNothing(s.log, |s.log|, now - cfg.window);
      ThinAppend(s.log, now, 1, cfg.window);
      assert [] + [now] == [now];
    }
  }

  lemma StepKeepsOne(cfg: Config, s: State, c: Call, k: string)
    requires One(cfg, s) && cfg.limit == 1 && 0 < cfg.window
    requires Step(cfg, s, c, k).behind <= cfg.Horizon() - cfg.window
    ensures One(cfg, Step(cfg, s, c, k))
  {
    if c.Allow? {
      var t := Swept(cfg, Read(s, c.key == k, c.now), c.now);
      assert One(cfg, t);
      if c.key == k {
        AdmitKeepsOne(cfg, t, c.now);
      }
    }
  }

  lemma BehindGrows(cfg: Config, s: State, c: Call, k: string)
    ensures s.behind <= Step(cfg, s, c, k).behind
  {
  }

  lemma {:induction false} RunKeepsOne(cfg: Config, start: int, calls: seq<Call>, n: nat, k: string)
    requires n <= |calls| && cfg.limit == 1 && 0 < cfg.window
    requires Run(cfg, start, calls, n, k).behind <= cfg.Horizon() - cfg.window
    ensures One(cfg, Run(cfg, start, calls, n, k))
  {
    if n > 0 {
      BehindGrows(cfg, Run(cfg, start, calls, n - 1, k), calls[n - 1], k);
      RunKeepsOne(cfg, start, calls, n - 1, k);
      StepKeepsOne(cfg, Run(cfg, start, calls, n - 1, k), calls[n - 1], k);
    }
  }

  // ----- The exact bound

  /** If no reading came behind another by more than `late`, the interval ending at `x` holds
      at most `limit` allowed calls of the key. */
  ghost predicate Bounded(cfg: Config, late: int, span: int, start: int, calls: seq<Call>, k: string, x: int) {
    Holds(cfg, late, span, Run(cfg, start, calls, |calls|, k), x)
  }

  ghost predicate Holds(cfg: Config, late: int, span: int, s: State, x: int) {
    s.behind <= late ==> CountIn(s.log, x - span, x) <= cfg.limit
  }

  /** How long intervals may be: the window less the lateness; for a limit of one, for which
      lateness does no harm, the window. */
  function SafeSpan(cfg: Config, late: int): int {
    if cfg.limit == 1 then cfg.window else cfg.window - late
  }

  lemma BoundHolds(cfg: Config, late: int, span: int, start: int, calls: seq<Call>, k: string, x: int)
    requires 0 < cfg.limit && 0 < cfg.window && late <= cfg.Horizon() - cfg.window && span <= SafeSpan(cfg, late)
    ensures Bounded(cfg, late, span, start, calls, k, x)
  {
    var s := Run(cfg, start, calls, |calls|, k);
    if s.behind <= late {
      if cfg.limit == 1 {
        RunKeepsOne(cfg, start, calls, |calls|, k);
        ThinLess(s.log, 1, cfg.window, span);
      } else {
        RunKeeps(cfg, start, calls, |calls|, k);
        ThinLess(s.log, cfg.limit, cfg.window - s.late, span);
      }
      ThinBounds(s.log, |s.log|, cfg.limit, span, x);
    }
  }

  function Zeros(n: nat): (z: seq<int>)
    ensures |z| == n && forall i :: 0 <= i < n ==> z[i] == 0
  {
    if n == 0 then [] else Zeros(n - 1) + [0]
  }

  /** `n` calls at 0, one at the end of the window, one that comes `late` behind it. */
  function LateCalls(cfg: Config, n: nat, late: int): (calls: seq<Call>)
    ensures |calls| == n + 2 && forall i :: 0 <= i < n ==> calls[i] == Allow("", 0)
    ensures calls[n] == Allow("", cfg.window) && calls[n + 1] == Allow("", cfg.window - late)
  {
    seq(n, i => Allow("", 0)) + [Allow("", cfg.window), Allow("", cfg.window - late)]
  }

  /** After calls of one key only, none of them swept. */
  function OneKey(hits: seq<int>, log: seq<int>, newest: int, late: int): State {
    State(hits, log, 0, newest, late, Some(newest), late)
  }

  lemma {:induction false} AfterAll(s: seq<int>, n: nat, c: int)
    requires n <= |s| && forall i :: 0 <= i < n ==> s[i] > c
    ensures AfterUpTo(s, n, c) == s[..n]
  {
    if n > 0 {
      AfterAll(s, n - 1, c);
    }
  }

  function BurstState(n: nat): State {
    if n == 0 then Start(0) else OneKey(Zeros(n), Zeros(n), 0, 0)
  }

  lemma BurstStep(cfg: Config, n: nat)
    requires n < cfg.limit && 0 < cfg.window
    ensures Step(cfg, BurstState(n), Allow("", 0), "") == BurstState(n + 1)
  {
    AfterAll(Zeros(n), n, -cfg.window);
    assert Zeros(n)[..n] == Zeros(n);
    assert Surviving(cfg, Read(BurstState(n), true, 0), 0) == Zeros(n);
    assert Zeros(n + 1) == Zeros(n) + [0];
  }

  lemma {:induction false} BurstRun(cfg: Config, calls: seq<Call>, n: nat)
    requires n <= |calls| && n <= cfg.limit && 0 < cfg.window && forall i :: 0 <= i < n ==> calls[i] == Allow("", 0)
    ensures Run(cfg, 0, calls, n, "") == BurstState(n)
  {
    if n > 0 {
      BurstRun(cfg, calls, n - 1);
      BurstStep(cfg, n - 1);
    }
  }

  lemma WindowEnds(cfg: Config, n: nat)
    requires 0 < n && 0 < cfg.limit && 0 < cfg.window
    ensures Step(cfg, BurstState(n), Allow("", cfg.window), "") == OneKey([cfg.window], Zeros(n) + [cfg.window], cfg.window, 0)
  {
    AfterUpToNothing(Zeros(n), n, 0);
    assert Surviving(cfg, Read(BurstState(n), true, cfg.window), cfg.window) == [];
    assert [] + [cfg.window] == [cfg.window];
  }

  lemma LateIsAllowed(cfg: Config, log: seq<int>, late: int)
    requires 1 < cfg.limit && 0 < cfg.window && 0 <= late
    ensures var s := Step(cfg, OneKey([cfg.window], log, cfg.window, 0), Allow("", cfg.window - late), "");
            s.behind == late && s.log == log + [cfg.window - late]
  {
    var now := cfg.window - late;
    var t := Read(OneKey([cfg.window], log, cfg.window, 0), true, now);
    assert t == State([cfg.window], log, 0, cfg.window, late, Some(cfg.window), late);
    FilterOne(cfg.window, now - cfg.window);
    assert Swept(cfg, t, now) == t && Surviving(cfg, t, now) == [cfg.window];
    assert Admitted(cfg, t, now).log == log + [now];
  }

  lemma {:induction false} CountZeros(n: nat, lo: int, hi: int, s: seq<int>)
    requires n <= |s| && (forall i :: 0 <= i < n ==> s[i] == 0) && lo < 0 <= hi
    ensures CountUpTo(s, n, lo, hi) == n
  {
    if n > 0 {
      CountZeros(n - 1, lo, hi, s);
    }
  }

  lemma WindowRun(cfg: Config, n: nat, calls: seq<Call>)
    requires 0 < n == cfg.limit < |calls| && 0 < cfg.window
    requires (forall i :: 0 <= i < n ==> calls[i] == Allow("", 0)) && calls[n] == Allow("", cfg.window)
    ensures Run(cfg, 0, calls, n + 1, "") == OneKey([cfg.window], Zeros(n) + [cfg.window], cfg.window, 0)
  {
    BurstRun(cfg, calls, n);
    WindowEnds(cfg, n);
  }

  lemma CountLate(z: seq<int>, window: int, x: int, span: int)
    requires x - span < 0 <= x <= window && forall i :: 0 <= i < |z| ==> z[i] == 0
    ensures CountIn(z + [window] + [x], x - span, x) >= |z| + 1
  {
    var n, log := |z|, z + [window] + [x];
    CountZeros(n, x - span, x, log);
    assert CountUpTo(log, n + 1, x - span, x) >= n && log[n + 1] == x;
  }

  lemma BoundFailsForOne(cfg: Config, late: int, span: int) returns (calls: seq<Call>, x: int)
    requires cfg.limit == 1 && 0 < cfg.window < span && 0 <= late
    ensures !Bounded(cfg, late, span, 0, calls, "", x)
  {
    calls := [Allow("", 0), Allow("", cfg.window)];
    x := cfg.window;
    WindowRun(cfg, 1, calls);
    var log := Zeros(1) + [x];
    assert Run(cfg, 0, calls, 2, "").log == log;
    CountZeros(1, x - span, x, log);
    assert CountUpTo(log, 2, x - span, x) == 2;
  }

  lemma LateRun(cfg: Config, late: int, calls: seq<Call>, n: nat, log: seq<int>)
    requires 1 < cfg.limit && 0 < cfg.window && 0 <= late && |calls| == n + 1 && calls[n] == Allow("", cfg.window - late)
    requires Run(cfg, 0, calls, n, "") == OneKey([cfg.window], log, cfg.window, 0)
    ensures Run(cfg, 0, calls, n + 1, "").behind == late && Run(cfg, 0, calls, n + 1, "").log == log + [cfg.window - late]
  {
    LateIsAllowed(cfg, log, late);
  }

  lemma LateCallExceeds(cfg: Config, late: int, span: int, s: State, z: seq<int>)
    requires |z| == cfg.limit && 0 <= late <= cfg.window && cfg.window - late < span
    requires (forall i :: 0 <= i < |z| ==> z[i] == 0) && s.behind == late && s.log == z + [cfg.window] + [cfg.window - late]
    ensures !Holds(cfg, late, span, s, cfg.window - late)
  {
    CountLate(z, cfg.window, cfg.window - late, span);
  }

  /** Beyond that length the bound fails. */
  lemma BoundFails(cfg: Config, late: int, span: int) returns (calls: seq<Call>, x: int)
    requires 1 < cfg.limit && 0 < cfg.window && 0 <= late <= cfg.window && cfg.window - late < span
    ensures !Bounded(cfg, late, span, 0, calls, "", x)
  {
    var n := cfg.limit;
    calls := LateCalls(cfg, n, late);
    x := cfg.window - late;
    WindowRun(cfg, n, calls);
    LateRun(cfg, late, calls, n + 1, Zeros(n) + [cfg.window]);
    LateCallExceeds(cfg, late, span, Run(cfg, 0, calls, n + 2, ""), Zeros(n));
  }

  /** In all runs with readings at most `late` behind, every interval of length `span` holds at
      most `limit` allowed calls of a key, if and only if the span is at most the window less
      the lateness (for a limit of one: the window). */
  lemma BoundIff(cfg: Config, late: int, span: int)
    requires 0 < cfg.limit && 0 < cfg.window && 0 <= late <= cfg.window && late <= cfg.Horizon() - cfg.window
    ensures (forall start, calls, k, x :: Bounded(cfg, late, span, start, calls, k, x)) <==> span <= SafeSpan(cfg, late)
  {
    if span <= SafeSpan(cfg, late) {
      forall start, calls, k, x
        ensures Bounded(cfg, late, span, start, calls, k, x)
      {
        BoundHolds(cfg, late, span, start, calls, k, x);
      }
    } else {
      var calls, x;
      if cfg.limit == 1 {
        calls, x := BoundFailsForOne(cfg, late, span);
      } else {
        calls, x := BoundFails(cfg, late, span);
      }
      assert !Bounded(cfg, late, span, 0, calls, "", x);
    }
  }
}
