/** Metric alert rules: the per-(rule, node) state machine, what it means over a whole
    run of samples, and the evaluator that drives it through the incident store. Heartbeats
    that run between each other's steps are module Interleaving. */
module AlertEvaluator {
  import Clock
  import opened Options
  import opened IncidentTable
  import opened IncidentStore

  datatype Metrics = Metrics(cpu: real, mem: real, disk: real, load1: real)

  datatype Rule = Rule(
    id: int, enabled: bool, metric: string, op: string, threshold: real,
    forSeconds: int, severity: string, title: string)

  function RuleBreach(op: string, value: real, threshold: real): bool {
    if op == "gt" then value > threshold
    else if op == "lt" then value < threshold
    else false
  }

  function MetricValue(m: Metrics, metric: string): Option<real> {
    if metric == "cpu_pct" then Some(m.cpu)
    else if metric == "mem_pct" then Some(m.mem)
    else if metric == "disk_pct" then Some(m.disk)
    else if metric == "load1" then Some(m.load1)
    else None
  }

  // ----- One rule on one node, sample by sample

  /** Breach start, if a breach is on, and whether the rule has fired in it. */
  datatype Phase = Phase(start: Option<int>, fired: bool)

  const STOPPED := Phase(None, false)

  /** What one evaluation of a rule sees: the clock, whether the value breaches, and the
      rule's ForSeconds at that moment (rules can be edited between samples). */
  datatype Sample = Sample(at: int, breach: bool, forSeconds: int)

  /** Whether a sample fires, in the phase before it. */
  predicate Fires(p: Phase, s: Sample) {
    s.breach && !p.fired && Clock.WholeSeconds(s.at - (if p.start.Some? then p.start.value else s.at)) >= s.forSeconds
  }

  function NextPhase(p: Phase, s: Sample): Phase {
    if !s.breach then STOPPED
    else Phase(Some(if p.start.Some? then p.start.value else s.at), p.fired || Fires(p, s))
  }

  function PhaseAfter(samples: seq<Sample>, n: nat): Phase
    requires n <= |samples|
  {
    if n == 0 then STOPPED else NextPhase(PhaseAfter(samples, n - 1), samples[n - 1])
  }

  /** The sample at which the breach that sample `i` belongs to began: the first after
      the last sample that was inside. */
  function EpisodeStart(samples: seq<Sample>, i: nat): (s: nat)
    requires i < |samples| && samples[i].breach
    ensures s <= i && (forall k :: s <= k <= i ==> samples[k].breach) && (s > 0 ==> !samples[s - 1].breach)
  {
    if i == 0 || !samples[i - 1].breach then i else EpisodeStart(samples, i - 1)
  }

  /** By sample `i` its breach has lasted, in whole seconds, at least the time the rule asks for at `i`. */
  predicate Dwelt(samples: seq<Sample>, i: nat)
    requires i < |samples| && samples[i].breach
  {
    Clock.WholeSeconds(samples[i].at - samples[EpisodeStart(samples, i)].at) >= samples[i].forSeconds
  }

  /** Sample `i` is the first of its breach by which the breach has lasted long enough. */
  ghost predicate FirstDwelt(samples: seq<Sample>, i: nat)
    requires i < |samples|
  {
    samples[i].breach && Dwelt(samples, i) &&
    forall j :: EpisodeStart(samples, i) <= j < i ==> samples[j].breach && !Dwelt(samples, j)
  }

  lemma {:induction false} SameEpisode(samples: seq<Sample>, j: nat, i: nat)
    requires j <= i < |samples| && samples[i].breach && EpisodeStart(samples, i) <= j
    ensures samples[j].breach && EpisodeStart(samples, j) == EpisodeStart(samples, i)
  {
    if j < i {
      SameEpisode(samples, j, i - 1);
    }
  }

  /** Some sample from `s` to before `n` had dwelt long enough. */
  ghost predicate EverDwelt(samples: seq<Sample>, s: nat, n: nat)
    requires n <= |samples|
  {
    exists j :: s <= j < n && samples[j].breach && Dwelt(samples, j)
  }

  /** The phase is what the samples since the last one inside say. */
  lemma {:induction false} PhaseMeans(samples: seq<Sample>, i: nat)
    requires i < |samples|
    ensures var p := PhaseAfter(samples, i + 1);
            if samples[i].breach then
              p.start == Some(samples[EpisodeStart(samples, i)].at) &&
              (p.fired <==> EverDwelt(samples, EpisodeStart(samples, i), i + 1))
            else p == STOPPED
    decreases i, 1
  {
    if samples[i].breach {
      var s := EpisodeStart(samples, i);
      BeforeSample(samples, i);
      assert EverDwelt(samples, s, i + 1) <==>
        EverDwelt(samples, s, i) || Dwelt(samples, i);
    }
  }

  /** The phase just before a breaching sample. */
  lemma BeforeSample(samples: seq<Sample>, i: nat)
    requires i < |samples| && samples[i].breach
    ensures var p, s := PhaseAfter(samples, i), EpisodeStart(samples, i);
            p.start == (if s < i then Some(samples[s].at) else None) &&
            (p.fired <==> EverDwelt(samples, s, i)) &&
            (Fires(p, samples[i]) <==> !p.fired && Dwelt(samples, i))
    decreases i, 0
  {
    if i > 0 {
      PhaseMeans(samples, i - 1);
    }
  }

  /** A run of samples fires exactly at the first long-enough sample of each breach. */
  lemma FiresIff(samples: seq<Sample>, i: nat)
    requires i < |samples|
    ensures Fires(PhaseAfter(samples, i), samples[i]) <==> FirstDwelt(samples, i)
  {
    if samples[i].breach {
      BeforeSample(samples, i);
      var s := EpisodeStart(samples, i);
      forall j | s <= j < i
        ensures samples[j].breach
      {
        SameEpisode(samples, j, i);
      }
    }
  }

  /** A breach fires at most once, and does fire if it ever lasts long enough. */
  lemma OneFirePerBreach(samples: seq<Sample>, i: nat)
    requires i < |samples| && samples[i].breach
    ensures forall j, k :: EpisodeStart(samples, i) <= j < k <= i ==> !(FirstDwelt(samples, j) && FirstDwelt(samples, k))
    ensures Dwelt(samples, i) ==> exists j :: EpisodeStart(samples, i) <= j <= i && FirstDwelt(samples, j)
  {
    var s := EpisodeStart(samples, i);
    forall j, k | s <= j < k <= i && FirstDwelt(samples, k)
      ensures !FirstDwelt(samples, j)
    {
      SameEpisode(samples, k, i);
    }
    if Dwelt(samples, i) {
      var j := Earliest(samples, i);
    }
  }

  lemma {:induction false} Earliest(samples: seq<Sample>, i: nat) returns (j: nat)
    requires i < |samples| && samples[i].breach && Dwelt(samples, i)
    ensures EpisodeStart(samples, i) <= j <= i && FirstDwelt(samples, j)
  {
    if k :| EpisodeStart(samples, i) <= k < i && samples[k].breach && Dwelt(samples, k) {
      SameEpisode(samples, k, i);
      j := Earliest(samples, k);
    } else {
      j := i;
      forall k | EpisodeStart(samples, i) <= k < i
        ensures samples[k].breach
      {
        SameEpisode(samples, k, i);
      }
    }
  }

  /** A breach that began at `start` has lasted the seconds a sample asks for. Part of a second
      counts for nothing, so a negative demand is met before its time. */
  ghost predicate LongBy(start: int, s: Sample) {
    var nanos := s.at - start;
    if 0 < s.forSeconds then nanos >= s.forSeconds * 1_000_000_000 else nanos > (s.forSeconds - 1) * 1_000_000_000
  }

  /** A breach begins at sample `b` and is still on at sample `i`. */
  ghost predicate Breaching(samples: seq<Sample>, b: nat, i: nat)
    requires b <= i < |samples|
  {
    (b > 0 ==> !samples[b - 1].breach) && forall k :: b <= k <= i ==> samples[k].breach
  }

  lemma {:induction false} BreachBegins(samples: seq<Sample>, b: nat, i: nat)
    requires b <= i < |samples| && Breaching(samples, b, i)
    ensures EpisodeStart(samples, i) == b
  {
    if b < i {
      BreachBegins(samples, b, i - 1);
    }
  }

  /** The sample that fires, told on times and values alone: its breach has lasted long enough
      by it, and by no earlier sample of the same breach. */
  lemma FirstDweltMeans(samples: seq<Sample>, b: nat, i: nat)
    requires b <= i < |samples| && Breaching(samples, b, i)
    ensures FirstDwelt(samples, i) <==>
            LongBy(samples[b].at, samples[i]) && forall j :: b <= j < i ==> !LongBy(samples[b].at, samples[j])
  {
    BreachBegins(samples, b, i);
    forall j | b <= j <= i
      ensures Dwelt(samples, j) <==> LongBy(samples[b].at, samples[j])
    {
      BreachBegins(samples, b, j);
    }
  }

  // ----- The evaluator

  datatype Key = Key(rule: int, node: string)

  /** One rule's turn in an evaluation: the clock when it is decided, the clock of the
      incident it may create, and the rendered detail. */
  datatype Turn = Turn(at: int, createAt: int, detail: string)

  /** The sample a rule sees; None if the rule is skipped. */
  function SampleFor(rule: Rule, m: Metrics, at: int): Option<Sample> {
    var value := MetricValue(m, rule.metric);
    if !rule.enabled || value == None then None
    else Some(Sample(at, RuleBreach(rule.op, value.value, rule.threshold), rule.forSeconds))
  }

  predicate FiresNow(p: Phase, rule: Rule, m: Metrics, at: int) {
    var s := SampleFor(rule, m, at);
    s.Some? && Fires(p, s.value)
  }

  function PhaseNow(p: Phase, rule: Rule, m: Metrics, at: int): Phase {
    var s := SampleFor(rule, m, at);
    if s.Some? then NextPhase(p, s.value) else p
  }

  /** The table after the first `n` rules had their turn, given which of them fired. */
  function Alerted(db: Db, rules: seq<Rule>, turns: seq<Turn>, fired: seq<bool>, node: string, n: nat): Db
    requires n <= |rules| && n <= |turns| && n <= |fired|
  {
    if n == 0 then db
    else
      var d := Alerted(db, rules, turns, fired, node, n - 1);
      var rule, turn := rules[n - 1], turns[n - 1];
      if fired[n - 1] then Create(d, Clock.Unix(turn.createAt), node, rule.severity, rule.title, turn.detail) else d
  }

  ghost predicate TurnInOrder(turns: seq<Turn>, i: nat, clock: int)
    requires i < |turns|
  {
    Clock.SECOND <= turns[i].createAt && turns[i].at <= turns[i].createAt &&
    (if i == 0 then clock else Clock.Unix(turns[i - 1].createAt)) <= Clock.Unix(turns[i].createAt)
  }

  /** What the evaluator holds for one key: its two entries and every sample it saw. */
  datatype KeyState = KeyState(phase: Phase, log: seq<Sample>)

  /** What a rule's turn makes of the state of its key. */
  ghost predicate TookTurn(before: KeyState, after: KeyState, rule: Rule, m: Metrics, at: int, fired: bool) {
    && Turned(before.log, after.log, SampleFor(rule, m, at), fired)
    && (fired <==> FiresNow(before.phase, rule, m, at))
    && after.phase == PhaseNow(before.phase, rule, m, at)
  }

  /** One of the first `n` rules has this key. */
  ghost predicate Named(rules: seq<Rule>, n: nat, node: string, k: Key)
    requires n <= |rules|
  {
    exists i :: 0 <= i < n && Key(rules[i].id, node) == k
  }

  ghost predicate Distinct(rules: seq<Rule>, j: nat)
    requires j < |rules|
  {
    forall i :: 0 <= i < j ==> rules[i].id != rules[j].id
  }

  /** What a turn adds to the log of its key, and whether it fired. */
  ghost predicate Turned(before: seq<Sample>, after: seq<Sample>, s: Option<Sample>, fired: bool) {
    match s
    case None => after == before && !fired
    case Some(x) => after == before + [x] && (fired <==> FirstDwelt(after, |before|))
  }

  /** What an evaluation adds to the samples of a rule, told on the metrics: the value of its
      metric, out of bounds on the side its operator names. Nothing for a disabled rule or an
      unknown metric. */
  ghost predicate Observes(rule: Rule, m: Metrics, at: int, before: seq<Sample>, after: seq<Sample>) {
    if !rule.enabled then after == before
    else
      match rule.metric
      case "cpu_pct" => Sees(rule, m.cpu, at, before, after)
      case "mem_pct" => Sees(rule, m.mem, at, before, after)
      case "disk_pct" => Sees(rule, m.disk, at, before, after)
      case "load1" => Sees(rule, m.load1, at, before, after)
      case _ => after == before
  }

  ghost predicate Sees(rule: Rule, v: real, at: int, before: seq<Sample>, after: seq<Sample>) {
    after == before + [Sample(at, (rule.op == "gt" && v > rule.threshold) || (rule.op == "lt" && v < rule.threshold), rule.forSeconds)]
  }

  lemma TurnObserves(before: KeyState, after: KeyState, rule: Rule, m: Metrics, at: int, fired: bool)
    requires TookTurn(before, after, rule, m, at, fired)
    ensures Observes(rule, m, at, before.log, after.log)
  {
  }

  // ----- What firing does to the rows

  /** The incidents raised by those of the first `n` rules that fired: the old ones live on,
      unresolved ones stay so, a new one has the title and severity of a rule that fired, and
      of each rule that fired one is open. */
  ghost predicate Alerts(before: Db, after: Db, rules: seq<Rule>, fired: seq<bool>, node: string, n: nat)
    requires n <= |rules| && n <= |fired|
  {
    && LiveOn(before, after)
    && (forall id :: id in after.rows && id !in before.rows ==> FromRule(after, id, rules, fired, node, n))
    && (forall i :: 0 <= i < n && fired[i] ==> SomeOpen(after, node, rules[i].title))
    && ((forall i :: 0 <= i < n ==> !fired[i]) ==> after == before)
  }

  ghost predicate LiveOn(before: Db, after: Db) {
    forall id :: id in before.rows ==> id in after.rows && Refreshed(before.rows[id], after.rows[id])
  }

  ghost predicate Refreshed(a: Row, b: Row) {
    b == a.(detail := b.detail, lastNotified := b.lastNotified) && (a.resolved ==> b == a)
  }

  ghost predicate FromRule(db: Db, id: int, rules: seq<Rule>, fired: seq<bool>, node: string, n: nat)
    requires n <= |rules| && n <= |fired|
  {
    exists i :: 0 <= i < n && fired[i] && Matches(db, id, node, rules[i].title) && db.rows[id].severity == rules[i].severity
  }

  ghost predicate SomeOpen(db: Db, node: string, title: string) {
    exists id :: Matches(db, id, node, title)
  }

  lemma RaiseMeans(db: Db, r: Db, now: int, node: string, severity: string, title: string, detail: string)
    requires Raises(db, r, now, node, severity, title, detail)
    ensures LiveOn(db, r) && SomeOpen(r, node, title)
    ensures forall id :: id in r.rows && id !in db.rows ==> Matches(r, id, node, title) && r.rows[id].severity == severity
  {
    if forall id :: id in db.rows && db.rows[id].node == node && db.rows[id].title == title ==> db.rows[id].resolved {
      assert Matches(r, db.nextId, node, title);
    } else {
      var id :| id in db.rows && !db.rows[id].resolved && db.rows[id].node == node && db.rows[id].title == title &&
        Refreshes(db, r, id, now, severity, detail);
      assert Matches(r, id, node, title);
    }
  }

  lemma FromRuleKept(mid: Db, after: Db, id: int, rules: seq<Rule>, fired: seq<bool>, node: string, n: nat)
    requires n < |rules| && n < |fired| && FromRule(mid, id, rules, fired, node, n) && LiveOn(mid, after)
    ensures FromRule(after, id, rules, fired, node, n + 1)
  {
    var i :| 0 <= i < n && fired[i] && Matches(mid, id, node, rules[i].title) && mid.rows[id].severity == rules[i].severity;
    assert Matches(after, id, node, rules[i].title);
  }

  lemma SomeOpenKept(mid: Db, after: Db, node: string, title: string)
    requires SomeOpen(mid, node, title) && LiveOn(mid, after)
    ensures SomeOpen(after, node, title)
  {
    var id :| Matches(mid, id, node, title);
    assert Matches(after, id, node, title);
  }

  lemma AlertsNext(before: Db, mid: Db, after: Db, rules: seq<Rule>, fired: seq<bool>, node: string, n: nat)
    requires n < |rules| && n < |fired| && Alerts(before, mid, rules, fired, node, n) && LiveOn(mid, after)
    requires fired[n] ==> SomeOpen(after, node, rules[n].title)
    requires forall id :: id in after.rows && id !in mid.rows ==> FromRule(after, id, rules, fired, node, n + 1)
    requires !fired[n] ==> after == mid
    ensures Alerts(before, after, rules, fired, node, n + 1)
  {
    forall id | id in after.rows && id !in before.rows
      ensures FromRule(after, id, rules, fired, node, n + 1)
    {
      if id in mid.rows {
        FromRuleKept(mid, after, id, rules, fired, node, n);
      }
    }
    forall i | 0 <= i < n && fired[i]
      ensures SomeOpen(after, node, rules[i].title)
    {
      SomeOpenKept(mid, after, node, rules[i].title);
    }
  }

  lemma {:induction false} AlertedMeans(db: Db, rules: seq<Rule>, turns: seq<Turn>, fired: seq<bool>, node: string, n: nat, clock: int)
    requires n <= |rules| == |turns| == |fired| && Inv(db, clock)
    requires forall i :: 0 <= i < |turns| ==> TurnInOrder(turns, i, clock)
    ensures Inv(Alerted(db, rules, turns, fired, node, n), if n == 0 then clock else Clock.Unix(turns[n - 1].createAt))
    ensures Alerts(db, Alerted(db, rules, turns, fired, node, n), rules, fired, node, n)
  {
    if n > 0 {
      AlertedMeans(db, rules, turns, fired, node, n - 1, clock);
      assert TurnInOrder(turns, n - 1, clock);
      var mid, rule, turn := Alerted(db, rules, turns, fired, node, n - 1), rules[n - 1], turns[n - 1];
      var was, now := if n == 1 then clock else Clock.Unix(turns[n - 2].createAt), Clock.Unix(turn.createAt);
      if fired[n - 1] {
        CreateKeepsInv(mid, was, now, node, rule.severity, rule.title, turn.detail);
        CreateRaises(mid, was, now, node, rule.severity, rule.title, turn.detail);
        RaiseMeans(mid, Create(mid, now, node, rule.severity, rule.title, turn.detail), now, node, rule.severity, rule.title, turn.detail);
      } else {
        LaterKeepsInv(mid, was, now);
      }
      AlertsNext(db, mid, Alerted(db, rules, turns, fired, node, n), rules, fired, node, n - 1);
    }
  }

  // ----- The samples the evaluator saw

  lemma {:induction false} EpisodePrefix(samples: seq<Sample>, more: seq<Sample>, i: nat)
    requires i < |samples| && samples <= more && samples[i].breach
    ensures EpisodeStart(more, i) == EpisodeStart(samples, i)
  {
    if i > 0 && samples[i - 1].breach {
      EpisodePrefix(samples, more, i - 1);
    }
  }

  lemma {:induction false} PhasePrefix(samples: seq<Sample>, more: seq<Sample>, n: nat)
    requires n <= |samples| && samples <= more
    ensures PhaseAfter(more, n) == PhaseAfter(samples, n)
  {
    if n > 0 {
      PhasePrefix(samples, more, n - 1);
    }
  }

  /** Later samples do not change which earlier ones were first to dwell. */
  lemma FirstDweltPrefix(samples: seq<Sample>, more: seq<Sample>, i: nat)
    requires i < |samples| && samples <= more
    ensures FirstDwelt(more, i) <==> FirstDwelt(samples, i)
  {
    if samples[i].breach {
      EpisodePrefix(samples, more, i);
      forall j | EpisodeStart(samples, i) <= j < i
        ensures samples[j].breach && Dwelt(more, j) == Dwelt(samples, j)
      {
        SameEpisode(samples, j, i);
        EpisodePrefix(samples, more, j);
      }
    }
  }

  /** Which samples fired: exactly the first of each breach to dwell long enough. */
  ghost predicate FiredFirst(samples: seq<Sample>, fires: seq<bool>) {
    |fires| == |samples| && forall i :: 0 <= i < |samples| ==> (fires[i] <==> FirstDwelt(samples, i))
  }

  lemma OneMoreSample(samples: seq<Sample>, fires: seq<bool>, s: Sample)
    requires FiredFirst(samples, fires)
    ensures var more, fired := samples + [s], Fires(PhaseAfter(samples, |samples|), s);
            PhaseAfter(more, |more|) == NextPhase(PhaseAfter(samples, |samples|), s) &&
            (fired <==> FirstDwelt(more, |samples|)) && FiredFirst(more, fires + [fired])
  {
    var more := samples + [s];
    PhasePrefix(samples, more, |samples|);
    FiresIff(more, |samples|);
    forall i | 0 <= i < |samples|
      ensures FirstDwelt(more, i) <==> FirstDwelt(samples, i)
    {
      FirstDweltPrefix(samples, more, i);
    }
  }

  class Evaluator {
    var breached: map<Key, int>
    var firing: map<Key, int>

    // Every sample evaluated per (rule, node), and which of them fired.
    ghost var log: map<Key, seq<Sample>>
    ghost var fires: map<Key, seq<bool>>

    function PhaseOf(k: Key): Phase
      reads this
    {
      Phase(if k in breached then Some(breached[k]) else None, k in firing && firing[k] != 0)
    }

    ghost function Log(k: Key): seq<Sample>
      reads this
    {
      if k in log then log[k] else []
    }

    ghost function FiresOf(k: Key): seq<bool>
      reads this
    {
      if k in fires then fires[k] else []
    }

    ghost function KeyOf(k: Key): KeyState
      reads this
    {
      KeyState(PhaseOf(k), Log(k))
    }

    /** The two entries of the key say what its samples say, and exactly the first sample of
        each breach to dwell long enough fired. */
    ghost predicate InStep(k: Key)
      reads this
    {
      PhaseOf(k) == PhaseAfter(Log(k), |Log(k)|) && FiredFirst(Log(k), FiresOf(k))
    }

    ghost predicate Valid()
      reads this
    {
      forall k :: InStep(k)
    }

    constructor ()
      ensures Valid() && forall k :: PhaseOf(k) == STOPPED && Log(k) == []
    {
      breached, firing := map[], map[];
      log, fires := map[], map[];
    }

    /** Enter one sample, once the entries of its key reflect it. */
    ghost method Note(key: Key, s: Sample, fired: bool)
      requires forall k :: k != key ==> InStep(k)
      requires PhaseOf(key) == PhaseAfter(Log(key) + [s], |Log(key)| + 1) && FiredFirst(Log(key) + [s], FiresOf(key) + [fired])
      modifies this`log, this`fires
      ensures Valid() && Log(key) == old(Log(key)) + [s] && FiresOf(key) == old(FiresOf(key)) + [fired]
      ensures forall k :: k != key ==> Log(k) == old(Log(k)) && FiresOf(k) == old(FiresOf(k))
    {
      log, fires := log[key := Log(key) + [s]], fires[key := FiresOf(key) + [fired]];
      forall k
        ensures InStep(k)
      {
        assert k != key ==> old(InStep(k));
      }
    }

    /** One rule's turn: a sample joins the log of its key, and it fires exactly if it is the
        first of its breach to dwell long enough. */
    method EvaluateRule(store: IncidentStore, rule: Rule, node: string, m: Metrics, turn: Turn) returns (ghost fired: bool)
      requires Valid() && store.Valid() && store.clock <= Clock.Unix(turn.createAt) && Clock.SECOND <= turn.createAt
      modifies this, store
      ensures Valid() && store.Valid() && store.clock <= Clock.Unix(turn.createAt)
      ensures TookTurn(old(KeyOf(Key(rule.id, node))), KeyOf(Key(rule.id, node)), rule, m, turn.at, fired)
      ensures Observes(rule, m, turn.at, old(Log(Key(rule.id, node))), Log(Key(rule.id, node)))
      ensures store.State() ==
                if fired then Create(old(store.State()), Clock.Unix(turn.createAt), node, rule.severity, rule.title, turn.detail)
                else old(store.State())
      ensures fired ==> Raises(old(store.State()), store.State(), Clock.Unix(turn.createAt), node, rule.severity, rule.title, turn.detail)
      ensures fired ==> Matches(store.State(), firing[Key(rule.id, node)], node, rule.title)
      ensures forall k :: k != Key(rule.id, node) ==> KeyOf(k) == old(KeyOf(k))
    {
      ghost var key, s := Key(rule.id, node), SampleFor(rule, m, turn.at);
      assert InStep(key);
      fired := TakeTurn(store, rule, node, m, turn);
      forall k | k != key
        ensures InStep(k)
      {
        assert old(InStep(k));
      }
      if s.Some? {
        OneMoreSample(Log(key), FiresOf(key), s.value);
        Note(key, s.value, fired);
      } else {
        assert InStep(key);
      }
      TurnObserves(old(KeyOf(key)), KeyOf(key), rule, m, turn.at, fired);
    }

    /** What a turn does to the two entries of the key and to the store. */
    method TakeTurn(store: IncidentStore, rule: Rule, node: string, m: Metrics, turn: Turn) returns (ghost fired: bool)
      requires store.Valid() && store.clock <= Clock.Unix(turn.createAt) && Clock.SECOND <= turn.createAt
      modifies this`breached, this`firing, store
      ensures store.Valid() && store.clock <= Clock.Unix(turn.createAt)
      ensures fired <==> FiresNow(old(PhaseOf(Key(rule.id, node))), rule, m, turn.at)
      ensures store.State() ==
                if fired then Create(old(store.State()), Clock.Unix(turn.createAt), node, rule.severity, rule.title, turn.detail)
                else old(store.State())
      ensures fired ==> Raises(old(store.State()), store.State(), Clock.Unix(turn.createAt), node, rule.severity, rule.title, turn.detail)
      ensures PhaseOf(Key(rule.id, node)) == PhaseNow(old(PhaseOf(Key(rule.id, node))), rule, m, turn.at)
      ensures fired ==> Matches(store.State(), firing[Key(rule.id, node)], node, rule.title)
      ensures forall k :: k != Key(rule.id, node) ==> PhaseOf(k) == old(PhaseOf(k))
    {
      fired := false;
      var value := MetricValue(m, rule.metric);
      if !rule.enabled || value == None {
        return;
      }
      var key := Key(rule.id, node);
      var breach := RuleBreach(rule.op, value.value, rule.threshold);
      var hasPrev, prevIncident := key in breached, if key in firing then firing[key] else 0;
      if breach {
        var start := turn.at;
        if hasPrev {
          start := breached[key];
        } else {
          breached := breached[key := turn.at];
        }
        if prevIncident == 0 && Clock.WholeSeconds(turn.at - start) >= rule.forSeconds {
          fired := true;
          CreateOpens(store.State(), store.clock, Clock.Unix(turn.createAt), node, rule.severity, rule.title, turn.detail, node, rule.title);
          store.CreateIncident(node, rule.severity, rule.title, turn.detail, Clock.Unix(turn.createAt));
          var id := IncidentIDAfterCreate(store, node, rule.title);
          firing := firing[key := id];
        }
      } else if hasPrev || prevIncident != 0 {
        breached := breached - {key};
        firing := firing[key := 0];
      }
    }

    /** The lookup after a create finds the open row, and its id is never 0. */
    method IncidentIDAfterCreate(store: IncidentStore, node: string, title: string) returns (id: int)
      requires store.Valid()
      ensures id == 0 <==> OpenSince(store.State(), node, title) == None
      ensures id != 0 ==> Matches(store.State(), id, node, title)
    {
      var open := store.Lookup(node, title);
      id := if open.Some? then open.value else 0;
      if open.Some? {
        assert RowWell(store.State(), open.value, store.clock);
      }
    }

    /** One evaluation of every rule of a node, in order. */
    method EvaluateMetricAlert(store: IncidentStore, rules: seq<Rule>, node: string, m: Metrics, turns: seq<Turn>)
      returns (ghost fired: seq<bool>)
      requires Valid() && store.Valid() && |turns| == |rules|
      requires forall i :: 0 <= i < |turns| ==> TurnInOrder(turns, i, store.clock)
      requires forall j :: 0 <= j < |rules| ==> Distinct(rules, j)
      modifies this, store
      ensures Valid() && store.Valid() && |fired| == |rules|
      ensures forall i :: 0 <= i < |rules| ==>
                TookTurn(old(KeyOf(Key(rules[i].id, node))), KeyOf(Key(rules[i].id, node)), rules[i], m, turns[i].at, fired[i])
      ensures forall i :: 0 <= i < |rules| ==>
                Observes(rules[i], m, turns[i].at, old(Log(Key(rules[i].id, node))), Log(Key(rules[i].id, node)))
      ensures store.State() == Alerted(old(store.State()), rules, turns, fired, node, |rules|)
      ensures Alerts(old(store.State()), store.State(), rules, fired, node, |rules|)
      ensures forall k :: !Named(rules, |rules|, node, k) ==> KeyOf(k) == old(KeyOf(k))
    {
      ghost var was := imap k: Key :: KeyOf(k);
      ghost var before, clock := store.State(), store.clock;
      fired := [];
      for n := 0 to |rules|
        invariant Valid() && store.Valid() && |fired| == n
        invariant store.clock <= (if n == 0 then clock else Clock.Unix(turns[n - 1].createAt))
        invariant TurnsTaken(was, rules, n, node, m, turns, fired)
        invariant store.State() == Alerted(before, rules, turns, fired, node, n)
      {
        assert TurnInOrder(turns, n, clock);
        ghost var f := EvaluateNext(store, rules, n, node, m, turns, was, fired);
        AlertedPrefix(before, rules, turns, fired, fired + [f], node, n);
        fired := fired + [f];
      }
      forall i | 0 <= i < |rules|
        ensures TookTurn(was[Key(rules[i].id, node)], KeyOf(Key(rules[i].id, node)), rules[i], m, turns[i].at, fired[i])
        ensures Observes(rules[i], m, turns[i].at, was[Key(rules[i].id, node)].log, Log(Key(rules[i].id, node)))
      {
        assert TookOne(was, rules, i, node, m, turns, fired);
        TurnObserves(was[Key(rules[i].id, node)], KeyOf(Key(rules[i].id, node)), rules[i], m, turns[i].at, fired[i]);
      }
      AlertedMeans(before, rules, turns, fired, node, |rules|, clock);
    }

    ghost predicate TookOne(was: imap<Key, KeyState>, rules: seq<Rule>, i: nat, node: string, m: Metrics, turns: seq<Turn>, fired: seq<bool>)
      requires i < |rules| && i < |turns| && i < |fired| && Key(rules[i].id, node) in was
      reads this
    {
      TookTurn(was[Key(rules[i].id, node)], KeyOf(Key(rules[i].id, node)), rules[i], m, turns[i].at, fired[i])
    }

    /** The first `n` rules took their turns, and no other key changed. */
    ghost predicate TurnsTaken(was: imap<Key, KeyState>, rules: seq<Rule>, n: nat, node: string, m: Metrics, turns: seq<Turn>, fired: seq<bool>)
      requires n <= |rules| && n <= |turns| && n <= |fired| && forall k: Key :: k in was
      reads this
    {
      && (forall i :: 0 <= i < n ==> TookOne(was, rules, i, node, m, turns, fired))
      && (forall k :: !Named(rules, n, node, k) ==> KeyOf(k) == was[k])
    }

    /** The loop body of an evaluation: the turn of rule `n`. */
    method EvaluateNext(store: IncidentStore, rules: seq<Rule>, n: nat, node: string, m: Metrics, turns: seq<Turn>,
        ghost was: imap<Key, KeyState>, ghost fired: seq<bool>)
      returns (ghost f: bool)
      requires Valid() && store.Valid() && n < |rules| == |turns| && |fired| == n && forall k: Key :: k in was
      requires store.clock <= Clock.Unix(turns[n].createAt) && Clock.SECOND <= turns[n].createAt
      requires forall j :: 0 <= j < |rules| ==> Distinct(rules, j)
      requires TurnsTaken(was, rules, n, node, m, turns, fired)
      modifies this, store
      ensures Valid() && store.Valid() && store.clock <= Clock.Unix(turns[n].createAt)
      ensures TurnsTaken(was, rules, n + 1, node, m, turns, fired + [f])
      ensures store.State() ==
                if f then Create(old(store.State()), Clock.Unix(turns[n].createAt), node, rules[n].severity, rules[n].title, turns[n].detail)
                else old(store.State())
    {
      ghost var key := Key(rules[n].id, node);
      assert Distinct(rules, n) && !Named(rules, n, node, key);
      f := EvaluateRule(store, rules[n], node, m, turns[n]);
      forall i | 0 <= i < n + 1
        ensures TookOne(was, rules, i, node, m, turns, fired + [f])
      {
        if i < n {
          assert old(TookOne(was, rules, i, node, m, turns, fired)) && rules[i].id != rules[n].id;
        }
      }
      forall k | !Named(rules, n + 1, node, k)
        ensures KeyOf(k) == was[k]
      {
        assert !Named(rules, n, node, k) && k != key;
      }
    }

    /** Over all evaluations so far: of the samples of one breach at most one fired, and one
        did if the breach ever lasted long enough. */
    lemma OneFire(k: Key, i: nat)
      requires Valid() && i < |Log(k)| && Log(k)[i].breach
      ensures |FiresOf(k)| == |Log(k)|
      ensures forall a, b :: EpisodeStart(Log(k), i) <= a < b <= i ==> !(FiresOf(k)[a] && FiresOf(k)[b])
      ensures Dwelt(Log(k), i) ==> exists j :: EpisodeStart(Log(k), i) <= j <= i && FiresOf(k)[j]
    {
      assert InStep(k);
      OneFirePerBreach(Log(k), i);
      if Dwelt(Log(k), i) {
        var j :| EpisodeStart(Log(k), i) <= j <= i && FirstDwelt(Log(k), j);
        assert FiresOf(k)[j];
      }
    }
  }

  lemma {:induction false} AlertedPrefix(db: Db, rules: seq<Rule>, turns: seq<Turn>, fired: seq<bool>, more: seq<bool>, node: string, n: nat)
    requires n <= |rules| && n <= |turns| && n <= |fired| && fired <= more
    ensures Alerted(db, rules, turns, fired, node, n) == Alerted(db, rules, turns, more, node, n)
  {
    if n > 0 {
      AlertedPrefix(db, rules, turns, fired, more, node, n - 1);
    }
  }
}
