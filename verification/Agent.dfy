/** The agent's command loop: one breaker per key, created on first use with the
    strategy of the class the key had then. */
module Agent {
  import Clock
  import opened Options
  import opened Windows
  import opened BreakerHistory
  import opened BreakerBound
  import opened BreakerGates
  import BreakerPace
  import opened CircuitBreaker
  import opened Policy

  datatype Outcome = Succeeded | ExecFailed | PostRestartDown

  /** One command of a heartbeat response, with what its handling meets: the class, the
      successive readings of the clock, and the outcome if it runs. */
  datatype Command = Command(
    key: string, kind: Class,
    purgeAt: int, allowAt: int, retryAt: int,
    outcome: Outcome, recordAt: int, crashAt: int)

  datatype Entry = Entry(command: string, status: string, reason: string, kind: Class)

  ghost predicate InOrder(c: Command, clock: int) {
    clock <= c.purgeAt <= c.allowAt <= c.retryAt <= c.recordAt <= c.crashAt
  }

  ghost predicate InTurn(cs: seq<Command>, i: nat, clock: int)
    requires i < |cs|
  {
    InOrder(cs[i], if i == 0 then clock else cs[i - 1].crashAt)
  }

  /** What the outcome of a command adds to the log of its key. */
  function OutcomeEvents(c: Command): History {
    if c.outcome.PostRestartDown? then [Recorded(c.recordAt, true), Crashed(c.crashAt)]
    else [Recorded(c.recordAt, c.outcome.ExecFailed?)]
  }

  function RunEvents(c: Command): History {
    [Allowed(c.allowAt)] + OutcomeEvents(c)
  }

  ghost function AfterCommand(st: Strategy, h: History, c: Command): History {
    if MayRun(st, h, |h|, c.allowAt) then h + RunEvents(c) else h + [Denied(c.allowAt)]
  }

  lemma CommandKeepsShape(st: Strategy, h: History, c: Command)
    requires AgentShaped(h)
    ensures AgentShaped(AfterCommand(st, h, c))
  {
  }

  /** Why the command is skipped; empty if it runs. */
  ghost function Verdict(st: Strategy, h: History, c: Command): string {
    if !Closed(st, h, |h|, c.allowAt) then "circuit_open"
    else if !Rested(st, h, |h|, c.allowAt) then "cooldown"
    else ""
  }

  function EntryFor(c: Command, reason: string): Entry {
    if reason != "" then Entry(c.key, "skipped", reason, c.kind)
    else Entry(c.key, if c.outcome.Succeeded? then "ok" else "failed", "", c.kind)
  }

  /** What the agent holds for one key: the class it was pinned to at first use, and every
      call made to its breaker. */
  datatype KeyState = KeyState(pinned: Option<Class>, log: History)

  function PinnedTo(s: KeyState, kind: Class): Class {
    if s.pinned.Some? then s.pinned.value else StrategyFor(kind).kind
  }

  function Pinned(s: KeyState, kind: Class): KeyState {
    s.(pinned := Some(PinnedTo(s, kind)))
  }

  /** What a command makes of a pinned key. */
  ghost function AfterPinned(s: KeyState, c: Command): KeyState
    requires s.pinned.Some?
  {
    s.(log := AfterCommand(StrategyFor(s.pinned.value).strategy, s.log, c))
  }

  /** What handling one command makes of the state of its key. */
  ghost function AfterOne(s: KeyState, c: Command): KeyState {
    AfterPinned(Pinned(s, c.kind), c)
  }

  /** What the first `n` commands make of the state of key `k`. */
  ghost function AfterAll(s: KeyState, cs: seq<Command>, n: nat, k: string): KeyState
    requires n <= |cs|
  {
    if n == 0 then s
    else if cs[n - 1].key == k then AfterOne(AfterAll(s, cs, n - 1, k), cs[n - 1])
    else AfterAll(s, cs, n - 1, k)
  }

  /** The entry a command leaves, given the state of its key before it. */
  ghost function EntryAfter(s: KeyState, c: Command): Entry {
    EntryFor(c, Verdict(StrategyFor(PinnedTo(s, c.kind)).strategy, s.log, c))
  }

  /** The breaker's answer to the command in this state, if it gives that reason. */
  ghost predicate Answers(s: KeyState, c: Command, reason: string) {
    exists a: Answer :: a.reason == reason && Fits(StrategyFor(PinnedTo(s, c.kind)).strategy, s.log, c.allowAt, c.retryAt, a)
  }

  /** What one command leaves behind, told on the events: the class of first use stays, a
      command that must wait is skipped with the breaker's reason, any other runs and its
      outcome is recorded, as a crash too if the target is down after its restart. */
  lemma HandlingMeans(s: KeyState, c: Command)
    requires Ordered(s.log)
    ensures var t, e := AfterOne(s, c), EntryAfter(s, c);
            e.command == c.key && e.kind == c.kind &&
            t.pinned == (if s.pinned.Some? then s.pinned else Some(if c.kind.Unknown? then Default else c.kind)) &&
            match e.status
            case "skipped" => t.log == s.log + [Denied(c.allowAt)] && e.reason in ["circuit_open", "cooldown"] && Answers(s, c, e.reason)
            case "ok" => c.outcome == Succeeded && e.reason == "" && Answers(s, c, "ok") &&
                         t.log == s.log + [Allowed(c.allowAt), Recorded(c.recordAt, false)]
            case "failed" => c.outcome != Succeeded && e.reason == "" && Answers(s, c, "ok") &&
                             t.log == s.log + [Allowed(c.allowAt), Recorded(c.recordAt, true)] +
                                      (if c.outcome == PostRestartDown then [Crashed(c.crashAt)] else [])
            case _ => false
  {
    var st := StrategyFor(PinnedTo(s, c.kind)).strategy;
    var a := Verdicts(st, s.log, c.allowAt, c.retryAt);
    AnswerFits(st, s.log, c.allowAt, c.retryAt, a);
  }

  lemma Verdicts(st: Strategy, h: History, now: int, later: int) returns (a: Answer)
    requires Ordered(h)
    ensures Explains(st, h, now, later, a)
  {
    TripTimesMean(st, h, |h|, now);
    UseTimesMean(st, h, |h|, now);
    var trip, use := LastOf(TripTimes(st, h, |h|)), LastOf(TimesOf(h, |h|, IsUse));
    a := if !Closed(st, h, |h|, now) then Answer(false, "circuit_open", trip, trip.value + st.openFor - later)
         else if !Rested(st, h, |h|, now) then Answer(false, "cooldown", None, use.value + st.cooldown - now)
         else Answer(true, "ok", None, 0);
  }

  /** Each of the first `n` commands left its entry behind those of `before`. */
  ghost predicate EntriesDone(pending: seq<Entry>, was: string -> KeyState, before: seq<Entry>, cs: seq<Command>, n: nat)
    requires n <= |cs|
  {
    && |pending| == |before| + n
    && (forall i :: 0 <= i < |before| ==> pending[i] == before[i])
    && (forall i :: 0 <= i < n ==> EntryStands(pending, was, before, cs, i))
  }

  ghost predicate EntryStands(pending: seq<Entry>, was: string -> KeyState, before: seq<Entry>, cs: seq<Command>, i: nat)
    requires i < |cs| && |before| + i < |pending|
  {
    pending[|before| + i] == EntryAfter(AfterAll(was(cs[i].key), cs, i, cs[i].key), cs[i])
  }

  lemma EntryStaysPut(pending: seq<Entry>, more: seq<Entry>, was: string -> KeyState, before: seq<Entry>, cs: seq<Command>, i: nat)
    requires i < |cs| && |before| + i < |pending| <= |more| && more[|before| + i] == pending[|before| + i]
    requires EntryStands(pending, was, before, cs, i)
    ensures EntryStands(more, was, before, cs, i)
  {
  }

  lemma EntriesNext(pending: seq<Entry>, was: string -> KeyState, before: seq<Entry>, cs: seq<Command>, n: nat)
    requires n < |cs| && EntriesDone(pending, was, before, cs, n)
    ensures var c := cs[n];
            EntriesDone(pending + [EntryAfter(AfterAll(was(c.key), cs, n, c.key), c)], was, before, cs, n + 1)
  {
    var more := pending + [EntryAfter(AfterAll(was(cs[n].key), cs, n, cs[n].key), cs[n])];
    assert EntryStands(more, was, before, cs, n);
    forall i | 0 <= i < n
      ensures EntryStands(more, was, before, cs, i)
    {
      assert EntryStands(pending, was, before, cs, i);
      EntryStaysPut(pending, more, was, before, cs, i);
    }
  }

  class Agent {
    var breakers: map<string, Breaker>
    var classes: map<string, Class>  // the class each breaker was created for
    var pending: seq<Entry>
    ghost var clock: int

    ghost predicate Serves(k: string)
      requires k in breakers && k in classes
      reads this, breakers[k]
    {
      var b := breakers[k];
      b.Valid() && b.clock <= clock && b.strategy == StrategyFor(classes[k]).strategy && AgentShaped(b.Log(k))
    }

    ghost predicate Valid()
      reads this, breakers.Values
    {
      && breakers.Keys == classes.Keys
      && (forall k {:trigger Serves(k)} :: k in breakers ==> Serves(k))
      && (forall k {:trigger Alone(k)} :: k in breakers ==> Alone(k))
    }

    /** No other key shares the breaker of `k`. */
    ghost predicate Alone(k: string)
      requires k in breakers
      reads this
    {
      forall j :: j in breakers && j != k ==> breakers[j] != breakers[k]
    }

    /** Every call the agent made to the breaker of key `k`. */
    ghost function Log(k: string): History
      reads this, breakers.Values
    {
      if k in breakers then breakers[k].Log(k) else []
    }

    ghost function KeyOf(k: string): KeyState
      reads this, breakers.Values
    {
      KeyState(if k in classes then Some(classes[k]) else None, Log(k))
    }

    constructor (ghost now: int)
      ensures Valid() && clock == now && breakers == map[] && pending == []
    {
      breakers, classes, pending, clock := map[], map[], [], now;
    }

    /** The first use of a key pins the strategy of the class it has then. */
    method Pin(key: string, kind: Class)
      requires Valid() && key !in breakers
      modifies this`breakers, this`classes
      ensures Valid() && key in breakers && fresh(breakers[key]) && breakers == old(breakers)[key := breakers[key]]
      ensures classes == old(classes)[key := StrategyFor(kind).kind]
      ensures breakers[key].Log(key) == []
    {
      var posture := StrategyFor(kind);
      var b := new Breaker(posture.strategy, clock);
      breakers := breakers[key := b];
      classes := classes[key := posture.kind];
      forall k | k in breakers
        ensures Serves(k)
      {
        if k != key {
          assert old(Serves(k));
        }
      }
      forall k | k in breakers
        ensures Alone(k)
      {
        if k != key {
          assert old(Alone(k));
        }
      }
    }

    method ForKey(key: string, kind: Class) returns (b: Breaker)
      requires Valid()
      modifies this`breakers, this`classes
      ensures Valid() && key in breakers && breakers[key] == b
      ensures KeyOf(key) == Pinned(old(KeyOf(key)), kind)
      ensures forall k: string :: k != key ==> KeyOf(k) == old(KeyOf(k))
      ensures key in old(breakers) ==> breakers == old(breakers) && classes == old(classes)
      ensures key !in old(breakers) ==>
                fresh(b) && breakers == old(breakers)[key := b] &&
                classes == old(classes)[key := StrategyFor(kind).kind]
    {
      if key !in breakers {
        Pin(key, kind);
      }
      b := breakers[key];
    }

    /** Run what an allowed command runs and feed the outcome back. */
    method Execute(b: Breaker, c: Command)
      requires b.Valid() && b.clock <= c.recordAt <= c.crashAt
      modifies b
      ensures b.Valid() && b.clock <= c.crashAt
      ensures b.Log(c.key) == old(b.Log(c.key)) + OutcomeEvents(c)
      ensures forall k: string :: k != c.key ==> b.Log(k) == old(b.Log(k))
    {
      b.Record(c.key, c.recordAt, !c.outcome.Succeeded?);
      if c.outcome.PostRestartDown? {
        b.RecordCrash(c.key, c.crashAt);
      }
    }

    /** The breaker's decision: empty when it allows, its reason otherwise. */
    method Ask(b: Breaker, c: Command) returns (reason: string)
      requires b.Valid() && InOrder(c, b.clock)
      modifies b
      ensures b.Valid() && b.clock == c.allowAt
      ensures reason == Verdict(b.strategy, old(b.Log(c.key)), c)
      ensures b.Log(c.key) == old(b.Log(c.key)) + [if reason == "" then Allowed(c.allowAt) else Denied(c.allowAt)]
      ensures forall k: string :: k != c.key ==> b.Log(k) == old(b.Log(k))
    {
      var decision := b.Allow(c.key, c.purgeAt, c.allowAt, c.retryAt);
      reason := if decision.answer.allowed then "" else decision.answer.reason;
    }

    /** Ask the breaker of the key, and execute if it allows. */
    method Attempt(b: Breaker, c: Command) returns (reason: string)
      requires b.Valid() && InOrder(c, b.clock) && AgentShaped(b.Log(c.key))
      modifies b
      ensures b.Valid() && b.clock <= c.crashAt
      ensures reason == Verdict(b.strategy, old(b.Log(c.key)), c)
      ensures b.Log(c.key) == AfterCommand(b.strategy, old(b.Log(c.key)), c)
      ensures AgentShaped(b.Log(c.key))
      ensures forall k: string :: k != c.key ==> b.Log(k) == old(b.Log(k))
    {
      ghost var h := b.Log(c.key);
      reason := Ask(b, c);
      CommandKeepsShape(b.strategy, h, c);
      if reason == "" {
        Execute(b, c);
        assert b.Log(c.key) == h + RunEvents(c);
      }
    }

    /** Attempt a command whose key has its breaker. */
    method AttemptPinned(c: Command)
      requires Valid() && InOrder(c, clock) && c.key in breakers
      modifies this`clock, this`pending, breakers[c.key]
      ensures Valid() && clock == c.crashAt
      ensures pending == old(pending) + [EntryAfter(old(KeyOf(c.key)), c)]
      ensures KeyOf(c.key) == AfterPinned(old(KeyOf(c.key)), c)
      ensures forall k: string :: k != c.key ==> KeyOf(k) == old(KeyOf(k))
    {
      assert Serves(c.key) && Alone(c.key);
      var reason := Attempt(breakers[c.key], c);
      pending := pending + [EntryFor(c, reason)];
      clock := c.crashAt;
      forall k | k in breakers
        ensures Serves(k)
      {
        assert old(Serves(k));
      }
      forall k | k in breakers
        ensures Alone(k)
      {
        assert old(Alone(k));
      }
    }

    method Handle(c: Command)
      requires Valid() && InOrder(c, clock)
      modifies this, breakers.Values
      ensures Valid() && clock == c.crashAt
      ensures c.key in breakers && breakers.Keys == old(breakers).Keys + {c.key}
      ensures c.key !in old(breakers) ==> fresh(breakers[c.key])
      ensures forall k :: k in old(breakers) ==> breakers[k] == old(breakers[k]) && classes[k] == old(classes[k])
      ensures KeyOf(c.key) == AfterOne(old(KeyOf(c.key)), c)
      ensures forall k: string :: k != c.key ==> KeyOf(k) == old(KeyOf(k))
      ensures pending == old(pending) + [EntryAfter(old(KeyOf(c.key)), c)]
    {
      var b := ForKey(c.key, c.kind);
      AttemptPinned(c);
    }

    /** Every key went through exactly its own commands among the first `n`, under the class
        of its first one. */
    ghost predicate KeysDone(was: string -> KeyState, cs: seq<Command>, n: nat)
      requires n <= |cs|
      reads this, breakers.Values
    {
      forall k: string :: KeyOf(k) == AfterAll(was(k), cs, n, k)
    }

    method HandleNext(cs: seq<Command>, n: nat, ghost was: string -> KeyState, ghost before: seq<Entry>)
      requires Valid() && n < |cs| && InOrder(cs[n], clock)
      requires KeysDone(was, cs, n) && EntriesDone(pending, was, before, cs, n)
      modifies this, breakers.Values
      ensures Valid() && clock == cs[n].crashAt
      ensures KeysDone(was, cs, n + 1) && EntriesDone(pending, was, before, cs, n + 1)
      ensures breakers.Keys == old(breakers).Keys + {cs[n].key}
      ensures cs[n].key !in old(breakers) ==> fresh(breakers[cs[n].key])
      ensures forall k :: k in old(breakers) ==> breakers[k] == old(breakers[k])
    {
      ghost var key := cs[n].key;
      assert KeyOf(key) == AfterAll(was(key), cs, n, key);
      EntriesNext(pending, was, before, cs, n);
      Handle(cs[n]);
      forall k: string
        ensures KeyOf(k) == AfterAll(was(k), cs, n + 1, k)
      {
        assert old(KeyOf(k)) == AfterAll(was(k), cs, n, k);
      }
    }

    /** The commands of one heartbeat response, in order; `was` tells the states of the keys
        before. No breaker is ever replaced. */
    method HandleAll(cs: seq<Command>, ghost was: string -> KeyState)
      requires Valid() && forall i :: 0 <= i < |cs| ==> InTurn(cs, i, clock)
      requires forall k: string :: KeyOf(k) == was(k)
      modifies this, breakers.Values
      ensures Valid() && KeysDone(was, cs, |cs|) && EntriesDone(pending, was, old(pending), cs, |cs|)
      ensures forall k :: k in old(breakers) ==> k in breakers && breakers[k] == old(breakers[k])
    {
      for i := 0 to |cs|
        invariant Valid() && clock == if i == 0 then old(clock) else cs[i - 1].crashAt
        invariant old(breakers).Keys <= breakers.Keys
        invariant forall k :: k in breakers ==> if k in old(breakers) then breakers[k] == old(breakers)[k] else fresh(breakers[k])
        invariant KeysDone(was, cs, i) && EntriesDone(pending, was, old(pending), cs, i)
      {
        assert InTurn(cs, i, old(clock));
        HandleNext(cs, i, was, old(pending));
      }
    }

    /** The bounds hold at any time, for every key and every interval. */
    lemma Bounds(k: string, span: int, x: int)
      requires Valid() && k in breakers && 0 < span
      ensures var st := StrategyFor(classes[k]).strategy;
              CountIn(AllowTimes(Log(k)), x - span, x) <= (span + st.cooldown - 1) / st.cooldown
      ensures var st := StrategyFor(classes[k]).strategy;
              span <= SafeSpan(st) ==> CountIn(FailTimes(Log(k)), x - span, x) <= st.burstLimit
    {
      assert Serves(k) && breakers[k].InStep(k);
      var st := StrategyFor(classes[k]).strategy;
      ExecutionBound(st, Log(k), span, x);
      if span <= SafeSpan(st) {
        FailureBound(st, Log(k), span, x);
      }
    }

    /** In any minutes so many: failing restarts, and restarts at all, by class. */
    lemma ExpensiveTargets(k: string, x: int)
      requires Valid() && k in breakers
      ensures classes[k] == DB ==> Within(k, 17 * Clock.MINUTE, x, 3) && AtMost(k, 15 * Clock.MINUTE, x, 8)
      ensures classes[k] == Critical ==> Within(k, 35 * Clock.MINUTE, x, 2) && AtMost(k, 30 * Clock.MINUTE, x, 6)
      ensures classes[k] == Default ==> Within(k, 9 * Clock.MINUTE, x, 5) && AtMost(k, 10 * Clock.MINUTE, x, 10)
      ensures classes[k] == Stateless ==> Within(k, 255 * Clock.SECOND, x, 6) && AtMost(k, 10 * Clock.MINUTE, x, 40)
      ensures classes[k] == Cache ==> Within(k, 390 * Clock.SECOND, x, 4) && AtMost(k, 10 * Clock.MINUTE, x, 20)
    {
      SafeSpans(classes[k]);
      var st := StrategyFor(classes[k]).strategy;
      Bounds(k, SafeSpan(st), x);
      Bounds(k, st.burstWindow, x);
    }

    /** At most `n` failing executions of the key in the interval of that length up to `x`. */
    ghost predicate Within(k: string, span: int, x: int, n: int)
      reads this, breakers.Values
    {
      CountIn(FailTimes(Log(k)), x - span, x) <= n
    }

    /** At most `n` executions of the key in it. */
    ghost predicate AtMost(k: string, span: int, x: int, n: int)
      reads this, breakers.Values
    {
      CountIn(AllowTimes(Log(k)), x - span, x) <= n
    }
  }

  /** The safe span of every class, and how many executions its burst window may hold. */
  lemma SafeSpans(c: Class)
    ensures var st := StrategyFor(c).strategy;
            match c
            case DB => SafeSpan(st) == 17 * Clock.MINUTE && st.burstLimit == 3 && Busiest(st) == 8 && st.cooldown == 120 * Clock.SECOND
            case Critical => SafeSpan(st) == 35 * Clock.MINUTE && st.burstLimit == 2 && Busiest(st) == 6 && st.cooldown == 300 * Clock.SECOND
            case Stateless => SafeSpan(st) == 255 * Clock.SECOND && st.burstLimit == 6 && Busiest(st) == 40 && st.cooldown == 15 * Clock.SECOND
            case Cache => SafeSpan(st) == 390 * Clock.SECOND && st.burstLimit == 4 && Busiest(st) == 20 && st.cooldown == 30 * Clock.SECOND
            case _ => SafeSpan(st) == 9 * Clock.MINUTE && st.burstLimit == 5 && Busiest(st) == 10 && st.cooldown == 60 * Clock.SECOND
  {
    var st := StrategyFor(c).strategy;
    BreakerPace.StepsAre(st.cooldown, st.burstLimit - 1);
  }

  function Busiest(st: Strategy): int
    requires st.Positive()
  {
    (st.burstWindow + st.cooldown - 1) / st.cooldown
  }

  // ----- No longer span is safe, whatever the class

  /** A command that runs and fails at once. */
  function FailingCommand(k: string, kind: Class, t: int): Command {
    Command(k, kind, t, t, t, ExecFailed, t, t)
  }

  function FailingCommands(k: string, kind: Class, f: seq<int>): (cs: seq<Command>)
    ensures |cs| == |f| && forall i :: 0 <= i < |cs| ==> cs[i] == FailingCommand(k, kind, f[i])
  {
    seq(|f|, (i: nat) requires i < |f| => FailingCommand(k, kind, f[i]))
  }

  lemma {:induction false} AllFail(k: string, kind: Class, f: seq<int>, n: nat)
    requires n <= |f| && Paced(StrategyFor(kind).strategy, f) && Sorted(f)
    ensures var s := AfterAll(KeyState(None, []), FailingCommands(k, kind, f), n, k);
            s.log == FailRun(f, n) && (s.pinned == if n == 0 then None else Some(StrategyFor(kind).kind))
  {
    if n > 0 {
      var st, h := StrategyFor(kind).strategy, FailRun(f, n - 1);
      AllFail(k, kind, f, n - 1);
      PacedRuns(st, f, n - 1);
      MayFailNext(st, f, n - 1, h);
      OneFails(st, h, FailingCommand(k, kind, f[n - 1]));
    }
  }

  lemma OneFails(st: Strategy, h: History, c: Command)
    requires MayRun(st, h, |h|, c.allowAt) && c.outcome.ExecFailed? && c.recordAt == c.allowAt
    ensures AfterCommand(st, h, c) == Failing(h, c.allowAt)
  {
  }

  /** Over any longer span some commands, each in its turn on a fresh agent, fail once more
      than the burst limit. */
  lemma LongerSpanExceeds(k: string, kind: Class, span: int) returns (cs: seq<Command>, x: int)
    requires SafeSpan(StrategyFor(kind).strategy) < span
    ensures forall i :: 0 <= i < |cs| ==> InTurn(cs, i, 0)
    ensures var log := AfterAll(KeyState(None, []), cs, |cs|, k).log;
            CountIn(FailTimes(log), x - span, x) > StrategyFor(kind).strategy.burstLimit
  {
    var st := StrategyFor(kind).strategy;
    var f := CrowdedSchedule(st, span);
    cs, x := FailingCommands(k, kind, f), f[|f| - 1];
    forall i | 0 <= i < |cs|
      ensures InTurn(cs, i, 0)
    {
      if i > 0 {
        SortedPair(f, i - 1, i);
      }
    }
    AllFail(k, kind, f, |f|);
    FailRunMeans(st, f, FailRun(f, |f|));
    CrowdedExceeds(st, f, span);
  }

  // ----- Nor are fewer executions

  function SucceedingCommand(k: string, kind: Class, t: int): Command {
    Command(k, kind, t, t, t, Succeeded, t, t)
  }

  /** `n` commands a cooldown apart. */
  function SteadyCommands(k: string, kind: Class, n: nat): seq<Command> {
    if n == 0 then []
    else SteadyCommands(k, kind, n - 1) + [SucceedingCommand(k, kind, Steps(StrategyFor(kind).strategy.cooldown, n - 1))]
  }

  lemma {:induction false} SteadyCommandsMean(k: string, kind: Class, n: nat)
    ensures |SteadyCommands(k, kind, n)| == n && forall i :: 0 <= i < n ==> SteadyAt(k, kind, SteadyCommands(k, kind, n), i)
  {
    if n > 0 {
      SteadyCommandsMean(k, kind, n - 1);
      var rest, cs := SteadyCommands(k, kind, n - 1), SteadyCommands(k, kind, n);
      forall i | 0 <= i < n
        ensures SteadyAt(k, kind, cs, i)
      {
        assert i < n - 1 ==> SteadyAt(k, kind, rest, i) && cs[i] == rest[i];
      }
    }
  }

  predicate SteadyAt(k: string, kind: Class, cs: seq<Command>, i: nat)
    requires i < |cs|
  {
    cs[i] == SucceedingCommand(k, kind, Steps(StrategyFor(kind).strategy.cooldown, i))
  }

  lemma OneSucceeds(st: Strategy, h: History, c: Command)
    requires MayRun(st, h, |h|, c.allowAt) && c.outcome.Succeeded? && c.recordAt == c.allowAt
    ensures AfterCommand(st, h, c) == BreakerPace.Succeeding(h, c.allowAt)
  {
  }

  lemma {:induction false} AllSucceed(k: string, kind: Class, cs: seq<Command>, n: nat)
    requires n <= |cs| && forall i :: 0 <= i < |cs| ==> SteadyAt(k, kind, cs, i)
    ensures var s := AfterAll(KeyState(None, []), cs, n, k);
            s.log == BreakerPace.Steady(StrategyFor(kind).strategy.cooldown, n) &&
            (s.pinned == if n == 0 then None else Some(StrategyFor(kind).kind))
  {
    if n > 0 {
      var st := StrategyFor(kind).strategy;
      AllSucceed(k, kind, cs, n - 1);
      assert SteadyAt(k, kind, cs, n - 1);
      BreakerPace.MayGoOn(st, n - 1);
      OneSucceeds(st, BreakerPace.Steady(st.cooldown, n - 1), cs[n - 1]);
    }
  }

  /** The bound on executions is reached by commands of a fresh agent that all succeed. */
  lemma ExecutionBoundIsReached(k: string, kind: Class, span: int) returns (cs: seq<Command>, x: int)
    requires 0 < span
    ensures forall i :: 0 <= i < |cs| ==> InTurn(cs, i, 0)
    ensures var st, log := StrategyFor(kind).strategy, AfterAll(KeyState(None, []), cs, |cs|, k).log;
            CountIn(AllowTimes(log), x - span, x) == (span + st.cooldown - 1) / st.cooldown
  {
    var st := StrategyFor(kind).strategy;
    var n := (span + st.cooldown - 1) / st.cooldown;
    BreakerPace.SteadyFills(st, span, n);
    cs, x := SteadyCommands(k, kind, n), Steps(st.cooldown, n - 1);
    SteadyCommandsMean(k, kind, n);
    forall i | 0 <= i < |cs|
      ensures InTurn(cs, i, 0)
    {
      assert SteadyAt(k, kind, cs, i) && (i > 0 ==> SteadyAt(k, kind, cs, i - 1));
      BreakerPace.StepsGrow(st.cooldown, if i == 0 then 0 else i - 1, i);
    }
    AllSucceed(k, kind, cs, n);
  }

  /** The attempts per burst window a class is meant to have bound nothing: for every class,
      some commands are executed more often than that within one. */
  lemma MaxAttemptsIsNoBound(k: string, kind: Class) returns (cs: seq<Command>, x: int)
    ensures forall i :: 0 <= i < |cs| ==> InTurn(cs, i, 0)
    ensures var p, log := StrategyFor(kind), AfterAll(KeyState(None, []), cs, |cs|, k).log;
            CountIn(AllowTimes(log), x - p.strategy.burstWindow, x) > p.maxAttempts
  {
    SafeSpans(kind);
    cs, x := ExecutionBoundIsReached(k, kind, StrategyFor(kind).strategy.burstWindow);
  }
}
