/** The evaluator releases its lock between deciding to fire, creating the incident,
    stamping the rule and storing the incident id. Here those steps, and everybody
    else's incident operations, run in any interleaving. */
module Interleaving {
  import Clock
  import opened Options
  import opened IncidentTable
  import opened IncidentStore
  import opened AlertEvaluator

  /** Where one heartbeat's evaluation of one rule stands, between its locked sections, and
      which breach of the key it decided to fire for. */
  datatype Task =
    | ToCreate(rule: Rule, node: string, breach: nat)
    | ToMark(rule: Rule, node: string, breach: nat)
    | ToStore(rule: Rule, node: string, breach: nat)

  function KeyOf(t: Task): Key {
    Key(t.rule.id, t.node)
  }

  /** The last four components only remember: how many breaches of a key began, the breach
      whose task last stored an open incident for it, the keys whose breach in progress was
      given a task, and the keys for which, since that breach began, the last store found no
      open incident. */
  datatype World = World(
    db: Db, breached: map<Key, int>, firing: map<Key, int>,
    tasks: map<int, Task>, lastFired: map<int, int>,
    breaches: map<Key, nat>, marked: map<Key, nat>, asked: set<Key>, emptied: set<Key>)

  /** The number of the latest breach of a key. */
  function Latest(w: World, k: Key): nat {
    if k in w.breaches then w.breaches[k] else 0
  }

  const START := World(EMPTY, map[], map[], map[], map[], map[], map[], {}, {})

  datatype Action =
    | Decide(task: int, at: int, reading: int, rule: Rule, node: string, breach: bool)
    | CreateStep(task: int, at: int, detail: string)
    | MarkStep(task: int, at: int)
    | StoreStep(task: int, at: int)
    | Other(op: Op)

  function TimeOf(a: Action): int {
    if a.Other? then a.op.at else a.at
  }

  function PhaseIn(w: World, k: Key): Phase {
    Phase(if k in w.breached then Some(w.breached[k]) else None, k in w.firing && w.firing[k] != 0)
  }

  function Begin(w: World, k: Key, reading: int): World {
    w.(breached := w.breached[k := reading], breaches := w.breaches[k := Latest(w, k) + 1], emptied := w.emptied - {k})
  }

  function Ask(w: World, task: int, rule: Rule, node: string): World {
    var k := Key(rule.id, node);
    w.(tasks := w.tasks[task := ToCreate(rule, node, Latest(w, k))], asked := w.asked + {k})
  }

  function End(w: World, k: Key): World {
    w.(breached := w.breached - {k}, firing := w.firing[k := 0], asked := w.asked - {k})
  }

  /** The first locked section: record a new breach, forget an ended one, or decide to
      fire; a task already under way decides nothing new. */
  function DecideIn(w: World, task: int, reading: int, rule: Rule, node: string, breach: bool): World {
    var k := Key(rule.id, node);
    if task in w.tasks then w
    else if breach then
      var v := if k in w.breached then w else Begin(w, k, reading);
      if Fires(PhaseIn(w, k), Sample(reading, true, rule.forSeconds)) then Ask(v, task, rule, node) else v
    else if k in w.breached || PhaseIn(w, k).fired then End(w, k)
    else w
  }

  /** The last locked section: look the open incident up and store its id. */
  function StoreIn(w: World, task: int): World
    requires task in w.tasks
  {
    var t := w.tasks[task];
    var k, v := KeyOf(t), w.(tasks := w.tasks - {task});
    match FindOpen(w.db, t.node, t.rule.title)
    case None => v.(firing := w.firing[k := 0], emptied := w.emptied + {k})
    case Some(id) => v.(firing := w.firing[k := id], marked := w.marked[k := t.breach], emptied := w.emptied - {k})
  }

  function Act(w: World, a: Action): World {
    match a
    case Decide(task, _, reading, rule, node, breach) => DecideIn(w, task, reading, rule, node, breach)
    case CreateStep(task, at, detail) =>
      if task in w.tasks && w.tasks[task].ToCreate? then
        var t := w.tasks[task];
        w.(db := Create(w.db, at, t.node, t.rule.severity, t.rule.title, detail), tasks := w.tasks[task := ToMark(t.rule, t.node, t.breach)])
      else w
    case MarkStep(task, at) =>
      if task in w.tasks && w.tasks[task].ToMark? then
        var t := w.tasks[task];
        w.(lastFired := w.lastFired[t.rule.id := at], tasks := w.tasks[task := ToStore(t.rule, t.node, t.breach)])
      else w
    case StoreStep(task, _) =>
      if task in w.tasks && w.tasks[task].ToStore? then StoreIn(w, task) else w
    case Other(op) => w.(db := Step(w.db, op))
  }

  function Runs(actions: seq<Action>, n: nat): World
    requires n <= |actions|
  {
    if n == 0 then START else Act(Runs(actions, n - 1), actions[n - 1])
  }

  ghost predicate InOrder(actions: seq<Action>) {
    forall j :: 0 <= j < |actions| ==> InOrderAt(actions, j)
  }

  ghost predicate InOrderAt(actions: seq<Action>, j: nat)
    requires j < |actions|
  {
    Follows(actions[j], if j == 0 then 0 else TimeOf(actions[j - 1]))
  }

  ghost predicate Follows(a: Action, clock: int) {
    0 < TimeOf(a) && clock <= TimeOf(a) && (a.Other? && a.op.OpSnooze? ==> 0 < a.op.first <= a.op.at && clock <= a.op.first)
  }

  // ----- Every interleaving is a run of the table

  lemma {:induction false} RunPrefix(db: Db, ops: seq<Op>, more: seq<Op>, n: nat)
    requires n <= |ops| && ops <= more
    ensures Run(db, ops, n) == Run(db, more, n)
  {
    if n > 0 {
      RunPrefix(db, ops, more, n - 1);
    }
  }

  /** The table operation an action performs, if any. */
  function TableOp(w: World, a: Action): Option<Op> {
    match a
    case CreateStep(task, at, detail) =>
      if task in w.tasks && w.tasks[task].ToCreate? then
        var t := w.tasks[task];
        Some(OpCreate(at, t.node, t.rule.severity, t.rule.title, detail))
      else None
    case Other(op) => Some(op)
    case _ => None
  }

  lemma ActIsTableOp(w: World, a: Action)
    ensures Act(w, a).db == match TableOp(w, a) case None => w.db case Some(op) => Step(w.db, op)
    ensures var op := TableOp(w, a);
            op.Some? ==> op.value.at == TimeOf(a) && (op.value.OpSnooze? ==> a.Other? && a.op == op.value)
  {
    if a.Decide? {
      DecideKeepsTable(w, a.task, a.reading, a.rule, a.node, a.breach);
    } else if Stores(w, a) {
      StoreKeepsTable(w, a.task);
    }
  }

  lemma DecideKeepsTable(w: World, task: int, reading: int, rule: Rule, node: string, breach: bool)
    ensures DecideIn(w, task, reading, rule, node, breach).db == w.db
  {
  }

  lemma StoreKeepsTable(w: World, task: int)
    requires task in w.tasks
    ensures StoreIn(w, task).db == w.db
  {
  }

  lemma TimedAppend(ops: seq<Op>, op: Op)
    requires Timed(ops) && 0 < op.at && (op.OpSnooze? ==> 0 < op.first <= op.at)
    requires ops != [] ==> ops[|ops| - 1].at <= op.at && (op.OpSnooze? ==> ops[|ops| - 1].at <= op.first)
    ensures Timed(ops + [op]) && Run(EMPTY, ops + [op], |ops| + 1) == Step(Run(EMPTY, ops, |ops|), op)
  {
    var more := ops + [op];
    RunPrefix(EMPTY, ops, more, |ops|);
    forall j | 0 <= j < |more|
      ensures TimedAt(more, j)
    {
      assert j < |ops| ==> TimedAt(ops, j);
    }
  }

  /** One more action extends the run of table operations by at most one. */
  lemma Extend(ops: seq<Op>, w: World, a: Action, clock: int) returns (more: seq<Op>)
    requires Timed(ops) && Run(EMPTY, ops, |ops|) == w.db && (ops != [] ==> ops[|ops| - 1].at <= clock)
    requires Follows(a, clock)
    ensures Timed(more) && Run(EMPTY, more, |more|) == Act(w, a).db
    ensures more != [] ==> more[|more| - 1].at <= TimeOf(a)
  {
    ActIsTableOp(w, a);
    match TableOp(w, a)
    case None =>
      more := ops;
    case Some(op) =>
      TimedAppend(ops, op);
      more := ops + [op];
  }

  /** The operations of an interleaving, in the order they took effect, are a timed run
      of the table that ends in the same table. */
  lemma {:induction false} Linearize(actions: seq<Action>, n: nat) returns (ops: seq<Op>)
    requires InOrder(actions) && n <= |actions|
    ensures Timed(ops) && Run(EMPTY, ops, |ops|) == Runs(actions, n).db
    ensures ops != [] ==> n > 0 && ops[|ops| - 1].at <= TimeOf(actions[n - 1])
  {
    if n == 0 {
      ops := [];
    } else {
      var before := Linearize(actions, n - 1);
      assert InOrderAt(actions, n - 1);
      ops := Extend(before, Runs(actions, n - 1), actions[n - 1], if n == 1 then 0 else TimeOf(actions[n - 2]));
    }
  }

  /** Under every interleaving: at most one open incident per (node, title), and a log in
      which attempts are spaced, snoozes hold, and a row is closed once and for all. */
  lemma EveryInterleaving(actions: seq<Action>, i: int, j: int, node: string, title: string)
    requires InOrder(actions)
    ensures var db := Runs(actions, |actions|).db;
            LogWell(db.log) && (Matches(db, i, node, title) && Matches(db, j, node, title) ==> i == j)
  {
    var ops := Linearize(actions, |actions|);
    EveryRun(ops, i, j, node, title);
  }

  /** Under every interleaving a row once resolved stays resolved or is deleted. */
  lemma {:induction false} NeverReopens(actions: seq<Action>, m: nat, n: nat, id: int)
    requires m <= n <= |actions| && id < Runs(actions, m).db.nextId && !OpenAt(Runs(actions, m).db, id)
    ensures id < Runs(actions, n).db.nextId && !OpenAt(Runs(actions, n).db, id)
  {
    if m < n {
      NeverReopens(actions, m, n - 1, id);
      var w := Runs(actions, n - 1);
      ActIsTableOp(w, actions[n - 1]);
      if TableOp(w, actions[n - 1]).Some? {
        StepNeverReopens(w.db, TableOp(w, actions[n - 1]).value, id);
      }
    }
  }

  /** A resolution is announced exactly by the automatic step that closes an open row, never
      by a step of the evaluator. */
  lemma AnnouncedOnlyByCloser(w: World, a: Action)
    ensures var v := Act(w, a);
            (exists e :: e in NewEvents(w.db, v.db) && e.Closed? && e.announced)
            <==> a.Other? && a.op.OpAutoResolve? && OpenAt(w.db, a.op.id) && !OpenAt(v.db, a.op.id)
  {
    ActIsTableOp(w, a);
    match TableOp(w, a)
    case None =>
      assert NewEvents(w.db, w.db) == [];
    case Some(op) =>
      AnnouncedByTheCloser(w.db, op);
  }

  /** A task that nobody interrupts creates its incident and stores its id. */
  lemma TaskFinishes(w: World, clock: int, task: int, at: int, detail: string)
    requires Inv(w.db, clock) && clock <= at && 0 < at && task in w.tasks && w.tasks[task].ToCreate?
    ensures var t, k := w.tasks[task], KeyOf(w.tasks[task]);
            var v := Act(Act(Act(w, CreateStep(task, at, detail)), MarkStep(task, at)), StoreStep(task, at));
            v.db == Create(w.db, at, t.node, t.rule.severity, t.rule.title, detail) && v.breached == w.breached &&
            v.tasks == w.tasks - {task} && k in v.firing && v.firing[k] != 0 && v.firing == w.firing[k := v.firing[k]]
  {
    var t := w.tasks[task];
    var db := Create(w.db, at, t.node, t.rule.severity, t.rule.title, detail);
    CreateKeepsInv(w.db, clock, at, t.node, t.rule.severity, t.rule.title, detail);
    CreateOpens(w.db, clock, at, t.node, t.rule.severity, t.rule.title, detail, t.node, t.rule.title);
    var id := FindOpen(db, t.node, t.rule.title).value;
    assert RowWell(db, id, at);
    var w1 := Act(w, CreateStep(task, at, detail));
    assert w1 == w.(db := db, tasks := w.tasks[task := ToMark(t.rule, t.node, t.breach)]);
    var w2 := Act(w1, MarkStep(task, at));
    assert w2.db == db && w2.tasks == w.tasks[task := ToStore(t.rule, t.node, t.breach)];
    assert w2.tasks - {task} == w.tasks - {task};
  }

  lemma PhaseOfMarked(w: World, v: World, k: Key, j: Key)
    requires v.breached == w.breached && k in v.firing && v.firing[k] != 0 && v.firing == w.firing[k := v.firing[k]]
    ensures PhaseIn(v, j) == if j == k then PhaseIn(w, j).(fired := true) else PhaseIn(w, j)
  {
  }

  lemma NoTask(w: World, task: int, at: int, detail: string)
    requires task !in w.tasks
    ensures Act(Act(Act(w, CreateStep(task, at, detail)), MarkStep(task, at)), StoreStep(task, at)) == w
  {
  }

  /** The first locked section does all of a turn but the firing. */
  lemma DecideIsTurn(w: World, task: int, reading: int, rule: Rule, node: string, breach: bool, j: Key)
    requires task !in w.tasks
    ensures var v, k, s := DecideIn(w, task, reading, rule, node, breach), Key(rule.id, node), Sample(reading, breach, rule.forSeconds);
            if j != k then PhaseIn(v, j) == PhaseIn(w, j)
            else PhaseIn(v, k) == NextPhase(PhaseIn(w, k), s).(fired := breach && PhaseIn(w, k).fired)
  {
  }

  lemma DecideAsks(w: World, task: int, reading: int, rule: Rule, node: string, breach: bool)
    requires task !in w.tasks
    ensures var v, k, s := DecideIn(w, task, reading, rule, node, breach), Key(rule.id, node), Sample(reading, breach, rule.forSeconds);
            v.db == w.db && (breach ==> k in v.breached) &&
            v.tasks == if Fires(PhaseIn(w, k), s) then w.tasks[task := ToCreate(rule, node, Latest(v, k))] else w.tasks
  {
    var k := Key(rule.id, node);
    if breach {
      var x := if k in w.breached then w else Begin(w, k, reading);
      BeginOnlyBegins(w, k, reading);
      AskOnlyAsks(x, task, rule, node);
    }
  }

  lemma BeginOnlyBegins(w: World, k: Key, reading: int)
    ensures var v := Begin(w, k, reading); v.db == w.db && v.tasks == w.tasks && k in v.breached
  {
  }

  lemma AskOnlyAsks(w: World, task: int, rule: Rule, node: string)
    ensures var v, k := Ask(w, task, rule, node), Key(rule.id, node);
            v.db == w.db && v.breached == w.breached && Latest(v, k) == Latest(w, k) &&
            v.tasks == w.tasks[task := ToCreate(rule, node, Latest(w, k))]
  {
  }

  /** The four steps of one heartbeat, uninterrupted, are one turn of the rule. */
  lemma UninterruptedSteps(w: World, clock: int, task: int, at: int, reading: int, rule: Rule, node: string, breach: bool, detail: string)
    requires Inv(w.db, clock) && clock <= at && 0 < at && task !in w.tasks
    ensures var v := Act(Act(Act(Act(w, Decide(task, at, reading, rule, node, breach)),
                         CreateStep(task, at, detail)), MarkStep(task, at)), StoreStep(task, at));
            var k, s := Key(rule.id, node), Sample(reading, breach, rule.forSeconds);
            PhaseIn(v, k) == NextPhase(PhaseIn(w, k), s) &&
            v.db == (if Fires(PhaseIn(w, k), s) then Create(w.db, at, node, rule.severity, rule.title, detail) else w.db) &&
            v.tasks == w.tasks && forall j :: j != k ==> PhaseIn(v, j) == PhaseIn(w, j)
  {
    var k, s := Key(rule.id, node), Sample(reading, breach, rule.forSeconds);
    var w1 := Act(w, Decide(task, at, reading, rule, node, breach));
    var v := Act(Act(Act(w1, CreateStep(task, at, detail)), MarkStep(task, at)), StoreStep(task, at));
    DecideAsks(w, task, reading, rule, node, breach);
    if Fires(PhaseIn(w, k), s) {
      TaskFinishes(w1, clock, task, at, detail);
      assert w1.tasks - {task} == w.tasks;
    } else {
      NoTask(w1, task, at, detail);
    }
    assert w1 == DecideIn(w, task, reading, rule, node, breach);
    TurnPhases(w, w1, v, task, reading, rule, node, breach);
  }

  /** After the first locked section, which may leave the key to be marked. */
  lemma TurnPhases(w: World, w1: World, v: World, task: int, reading: int, rule: Rule, node: string, breach: bool)
    requires task !in w.tasks && w1 == DecideIn(w, task, reading, rule, node, breach)
    requires var k := Key(rule.id, node);
             if Fires(PhaseIn(w, k), Sample(reading, breach, rule.forSeconds))
             then v.breached == w1.breached && k in v.firing && v.firing[k] != 0 && v.firing == w1.firing[k := v.firing[k]]
             else v == w1
    ensures var k, s := Key(rule.id, node), Sample(reading, breach, rule.forSeconds);
            PhaseIn(v, k) == NextPhase(PhaseIn(w, k), s) && forall j :: j != k ==> PhaseIn(v, j) == PhaseIn(w, j)
  {
    var k, s := Key(rule.id, node), Sample(reading, breach, rule.forSeconds);
    forall j
      ensures PhaseIn(v, j) == if j == k then NextPhase(PhaseIn(w, k), s) else PhaseIn(w, j)
    {
      DecideIsTurn(w, task, reading, rule, node, breach, j);
      if Fires(PhaseIn(w, k), s) {
        PhaseOfMarked(w1, v, k, j);
      }
    }
  }

  /** Open incidents have non-zero ids in every run, so a stored id 0 means none was found. */
  ghost predicate IdsCount(db: Db) {
    forall id :: OpenAt(db, id) ==> id != 0
  }

  lemma RunIdsCount(actions: seq<Action>, n: nat)
    requires InOrder(actions) && n <= |actions|
    ensures IdsCount(Runs(actions, n).db)
  {
    var ops := Linearize(actions, n);
    RunKeepsInv(ops, |ops|);
    var db := Runs(actions, n).db;
    forall id | OpenAt(db, id)
      ensures id != 0
    {
      assert RowWell(db, id, if |ops| == 0 then 0 else ops[|ops| - 1].at);
    }
  }

  // ----- A late store silences a breach it does not belong to

  /** A key is marked fired only by a task of the breach now in progress. */
  ghost predicate OwnBreach(w: World) {
    forall k :: OwnMark(w, k)
  }

  ghost predicate OwnMark(w: World, k: Key) {
    PhaseIn(w, k).fired ==> k in w.breached && k in w.marked && w.marked[k] == Latest(w, k)
  }

  ghost predicate Stores(w: World, a: Action) {
    a.StoreStep? && a.task in w.tasks && w.tasks[a.task].ToStore?
  }

  /** The step stores an open incident for a breach that is no longer in progress. */
  ghost predicate StaleStore(w: World, a: Action) {
    Stores(w, a) &&
    var t := w.tasks[a.task];
    FindOpen(w.db, t.node, t.rule.title).Some? && (KeyOf(t) !in w.breached || Latest(w, KeyOf(t)) != t.breach)
  }

  lemma DecideKeepsMark(w: World, task: int, reading: int, rule: Rule, node: string, breach: bool, k: Key)
    requires OwnMark(w, k)
    ensures OwnMark(DecideIn(w, task, reading, rule, node, breach), k)
  {
  }

  lemma StoreKeepsMark(w: World, task: int, k: Key)
    requires OwnMark(w, k) && IdsCount(w.db) && task in w.tasks
    ensures var t := w.tasks[task];
            OwnMark(StoreIn(w, task), k) <==>
            !(k == KeyOf(t) && FindOpen(w.db, t.node, t.rule.title).Some? && (k !in w.breached || Latest(w, k) != t.breach))
  {
  }

  /** A step makes another breach's task mark the key exactly if it is a stale store. */
  lemma OwnBreachIff(w: World, a: Action)
    requires OwnBreach(w) && IdsCount(w.db)
    ensures OwnBreach(Act(w, a)) <==> !StaleStore(w, a)
  {
    var v := Act(w, a);
    forall k
      ensures OwnMark(v, k) <==> !(StaleStore(w, a) && KeyOf(w.tasks[a.task]) == k)
    {
      assert OwnMark(w, k);
      if a.Decide? {
        DecideKeepsMark(w, a.task, a.reading, a.rule, a.node, a.breach, k);
      } else if Stores(w, a) {
        StoreKeepsMark(w, a.task, k);
      } else {
        assert v.firing == w.firing && v.breached == w.breached && v.breaches == w.breaches && v.marked == w.marked;
      }
    }
    if StaleStore(w, a) {
      assert !OwnMark(v, KeyOf(w.tasks[a.task]));
    }
  }

  ghost predicate OwnAt(actions: seq<Action>, m: nat)
    requires m <= |actions|
  {
    OwnBreach(Runs(actions, m))
  }

  ghost predicate StaleAt(actions: seq<Action>, j: nat)
    requires j < |actions|
  {
    StaleStore(Runs(actions, j), actions[j])
  }

  lemma OwnNextIff(actions: seq<Action>, n: nat)
    requires InOrder(actions) && n < |actions| && OwnAt(actions, n)
    ensures OwnAt(actions, n + 1) <==> !StaleAt(actions, n)
  {
    RunIdsCount(actions, n);
    OwnBreachIff(Runs(actions, n), actions[n]);
  }

  lemma OwnAtStart(actions: seq<Action>)
    ensures OwnAt(actions, 0)
  {
    forall k
      ensures OwnMark(START, k)
    {
    }
  }

  /** Through a whole run keys are marked by their own breaches exactly if no store is stale. */
  lemma {:induction false} RunOwnBreachIff(actions: seq<Action>, n: nat)
    requires InOrder(actions) && n <= |actions|
    ensures (forall m :: 0 <= m <= n ==> OwnAt(actions, m)) <==> (forall j :: 0 <= j < n ==> !StaleAt(actions, j))
  {
    if n > 0 {
      RunOwnBreachIff(actions, n - 1);
      if OwnAt(actions, n - 1) {
        OwnNextIff(actions, n - 1);
      }
    } else {
      OwnAtStart(actions);
    }
  }

  ghost predicate Decides(w: World, a: Action) {
    a.Decide? && a.task !in w.tasks && a.breach
  }

  /** By the sample, the breach in progress has lasted as long as the rule asks for. */
  ghost predicate LongEnough(w: World, a: Action)
    requires a.Decide?
  {
    var k := Key(a.rule.id, a.node);
    k in w.breached && Clock.WholeSeconds(a.reading - w.breached[k]) >= a.rule.forSeconds
  }

  /** A sample inside, or a store that finds no open incident. */
  ghost predicate Rearms(w: World, a: Action, k: Key) {
    (a.Decide? && a.task !in w.tasks && !a.breach && Key(a.rule.id, a.node) == k) ||
    (Stores(w, a) && KeyOf(w.tasks[a.task]) == k && FindOpen(w.db, k.node, w.tasks[a.task].rule.title) == None)
  }

  ghost predicate SamplesBreach(a: Action, k: Key) {
    a.Decide? && a.breach && Key(a.rule.id, a.node) == k
  }

  /** A marked key stays marked until it is re-armed, and while it is no sample fires. */
  lemma StaysMarkedIff(w: World, a: Action, k: Key)
    requires PhaseIn(w, k).fired && IdsCount(w.db)
    ensures PhaseIn(Act(w, a), k).fired <==> !Rearms(w, a, k)
    ensures SamplesBreach(a, k) ==> Act(w, a).tasks == w.tasks
  {
  }

  lemma StaleStoreMarks(w: World, a: Action)
    requires StaleStore(w, a) && IdsCount(w.db)
    ensures PhaseIn(Act(w, a), KeyOf(w.tasks[a.task])).fired
  {
  }

  ghost predicate RearmsAt(actions: seq<Action>, i: nat, k: Key)
    requires i < |actions|
  {
    Rearms(Runs(actions, i), actions[i], k)
  }

  lemma {:induction false} MarkedOn(actions: seq<Action>, j: nat, m: nat, k: Key)
    requires InOrder(actions) && j <= m <= |actions| && PhaseIn(Runs(actions, j), k).fired
    requires forall i :: j <= i < m ==> !RearmsAt(actions, i, k)
    ensures PhaseIn(Runs(actions, m), k).fired
  {
    if j < m {
      MarkedOn(actions, j, m - 1, k);
      RunIdsCount(actions, m - 1);
      assert !RearmsAt(actions, m - 1, k);
      StaysMarkedIff(Runs(actions, m - 1), actions[m - 1], k);
    }
  }

  /** After a stale store, and until its key is re-armed, no breaching sample fires, whichever
      breach it belongs to. */
  lemma StaleStoreSilences(actions: seq<Action>, j: nat, m: nat, k: Key)
    requires InOrder(actions) && j < m < |actions|
    requires StaleAt(actions, j) && k == KeyOf(Runs(actions, j).tasks[actions[j].task])
    requires forall i :: j < i < m ==> !RearmsAt(actions, i, k)
    requires SamplesBreach(actions[m], k)
    ensures Runs(actions, m + 1).tasks == Runs(actions, m).tasks
  {
    RunIdsCount(actions, j);
    StaleStoreMarks(Runs(actions, j), actions[j]);
    MarkedOn(actions, j + 1, m, k);
    RunIdsCount(actions, m);
    StaysMarkedIff(Runs(actions, m), actions[m], k);
  }

  /** When another actor closes an incident while a key is marked, the key stays marked: nothing
      is raised while the breach goes on, however long, and the incident is not open again,
      unless a store that finds nothing re-arms the key. */
  lemma ClosedStaysSilent(actions: seq<Action>, j: nat, m: nat, k: Key, id: int)
    requires InOrder(actions) && j < m < |actions| && PhaseIn(Runs(actions, j), k).fired && actions[j].Other?
    requires OpenAt(Runs(actions, j).db, id) && !OpenAt(Runs(actions, j + 1).db, id)
    requires forall i :: j < i < m ==> !RearmsAt(actions, i, k)
    requires SamplesBreach(actions[m], k)
    ensures Runs(actions, m + 1).tasks == Runs(actions, m).tasks && !OpenAt(Runs(actions, m + 1).db, id)
  {
    assert !RearmsAt(actions, j, k);
    MarkedOn(actions, j, m, k);
    RunIdsCount(actions, m);
    StaysMarkedIff(Runs(actions, m), actions[m], k);
    ClosedForGood(actions, j, m + 1, id);
  }

  lemma ClosedForGood(actions: seq<Action>, j: nat, m: nat, id: int)
    requires InOrder(actions) && j < m <= |actions| && actions[j].Other?
    requires OpenAt(Runs(actions, j).db, id) && !OpenAt(Runs(actions, j + 1).db, id)
    ensures !OpenAt(Runs(actions, m).db, id)
  {
    IdIsOld(actions, j, id);
    ActIsTableOp(Runs(actions, j), actions[j]);
    IdsGrow(Runs(actions, j).db, actions[j].op);
    NeverReopens(actions, j + 1, m, id);
  }

  lemma IdsGrow(db: Db, op: Op)
    ensures db.nextId <= Step(db, op).nextId
  {
  }

  lemma IdIsOld(actions: seq<Action>, n: nat, id: int)
    requires InOrder(actions) && n <= |actions| && OpenAt(Runs(actions, n).db, id)
    ensures id < Runs(actions, n).db.nextId
  {
    var ops := Linearize(actions, n);
    RunKeepsInv(ops, |ops|);
    assert RowWell(Runs(actions, n).db, id, if |ops| == 0 then 0 else ops[|ops| - 1].at);
  }

  // ----- When one breach fires twice

  /** The sample fires although its breach was already given a task. */
  ghost predicate FiresAgain(w: World, a: Action) {
    Decides(w, a) && Key(a.rule.id, a.node) in w.asked && a.task in Act(w, a).tasks
  }

  /** Some task of the breach in progress has not stored its id yet. */
  ghost predicate UnderWay(w: World, k: Key) {
    k in w.breached && exists t :: t in w.tasks && KeyOf(w.tasks[t]) == k && w.tasks[t].breach == Latest(w, k)
  }

  ghost predicate AskedMeans(w: World, k: Key) {
    k in w.asked ==> k in w.breached && (PhaseIn(w, k).fired || UnderWay(w, k) || k in w.emptied)
  }

  lemma UnderWayKept(w: World, v: World, k: Key)
    requires UnderWay(w, k) && k in v.breached && Latest(v, k) == Latest(w, k)
    requires forall t :: t in w.tasks ==> t in v.tasks && v.tasks[t] == w.tasks[t]
    ensures UnderWay(v, k)
  {
    var t :| t in w.tasks && KeyOf(w.tasks[t]) == k && w.tasks[t].breach == Latest(w, k);
    assert t in v.tasks;
  }

  lemma BeginKeepsAsked(w: World, b: Key, reading: int, k: Key)
    requires AskedMeans(w, k) && b !in w.breached
    ensures AskedMeans(Begin(w, b, reading), k)
  {
    if k in w.asked && UnderWay(w, k) {
      UnderWayKept(w, Begin(w, b, reading), k);
    }
  }

  lemma AskKeepsAsked(w: World, task: int, rule: Rule, node: string, k: Key)
    requires AskedMeans(w, k) && task !in w.tasks && Key(rule.id, node) in w.breached
    ensures AskedMeans(Ask(w, task, rule, node), k)
  {
    var v := Ask(w, task, rule, node);
    if k == Key(rule.id, node) {
      assert KeyOf(v.tasks[task]) == k && v.tasks[task].breach == Latest(v, k);
    } else if k in w.asked && UnderWay(w, k) {
      UnderWayKept(w, v, k);
    }
  }

  lemma EndKeepsAsked(w: World, b: Key, k: Key)
    requires AskedMeans(w, k)
    ensures AskedMeans(End(w, b), k)
  {
    if k != b && k in w.asked && UnderWay(w, k) {
      UnderWayKept(w, End(w, b), k);
    }
  }

  lemma DecideKeepsAsked(w: World, task: int, reading: int, rule: Rule, node: string, breach: bool, k: Key)
    requires AskedMeans(w, k) && task !in w.tasks
    ensures AskedMeans(DecideIn(w, task, reading, rule, node, breach), k)
  {
    var b := Key(rule.id, node);
    EndKeepsAsked(w, b, k);
    if breach {
      if b !in w.breached {
        BeginKeepsAsked(w, b, reading, k);
      }
      AskKeepsAsked(if b in w.breached then w else Begin(w, b, reading), task, rule, node, k);
    }
  }

  lemma StoreKeepsAsked(w: World, task: int, k: Key)
    requires AskedMeans(w, k) && IdsCount(w.db) && task in w.tasks
    ensures AskedMeans(StoreIn(w, task), k)
  {
    var v := StoreIn(w, task);
    if k in w.asked && k != KeyOf(w.tasks[task]) && UnderWay(w, k) {
      var t :| t in w.tasks && KeyOf(w.tasks[t]) == k && w.tasks[t].breach == Latest(w, k);
      assert t in v.tasks && v.tasks[t] == w.tasks[t];
    }
  }

  lemma AdvanceKeepsAsked(w: World, v: World, k: Key)
    requires AskedMeans(w, k) && Advances(w, v)
    ensures AskedMeans(v, k)
  {
    if k in w.asked && UnderWay(w, k) {
      var t :| t in w.tasks && KeyOf(w.tasks[t]) == k && w.tasks[t].breach == Latest(w, k);
      assert t in v.tasks;
    }
  }

  /** A step outside the two locked sections that do their work keeps what the locks guard,
      and every task in progress keeps its key and its breach. */
  ghost predicate Advances(w: World, v: World) {
    && v.breached == w.breached && v.breaches == w.breaches && v.firing == w.firing
    && v.asked == w.asked && v.marked == w.marked && v.emptied == w.emptied && v.tasks.Keys == w.tasks.Keys
    && forall t :: t in w.tasks ==> KeyOf(v.tasks[t]) == KeyOf(w.tasks[t]) && v.tasks[t].breach == w.tasks[t].breach
  }

  lemma ActAdvances(w: World, a: Action)
    requires !Stores(w, a) && (a.Decide? ==> a.task in w.tasks)
    ensures Advances(w, Act(w, a))
  {
  }

  lemma AskedKept(w: World, a: Action, k: Key)
    requires AskedMeans(w, k) && IdsCount(w.db)
    ensures AskedMeans(Act(w, a), k)
  {
    if a.Decide? && a.task !in w.tasks {
      DecideKeepsAsked(w, a.task, a.reading, a.rule, a.node, a.breach, k);
    } else if Stores(w, a) {
      StoreKeepsAsked(w, a.task, k);
    } else {
      ActAdvances(w, a);
      AdvanceKeepsAsked(w, Act(w, a), k);
    }
  }

  lemma {:induction false} RunAskedMeans(actions: seq<Action>, n: nat, k: Key)
    requires InOrder(actions) && n <= |actions|
    ensures AskedMeans(Runs(actions, n), k)
  {
    if n > 0 {
      RunAskedMeans(actions, n - 1, k);
      RunIdsCount(actions, n - 1);
      AskedKept(Runs(actions, n - 1), actions[n - 1], k);
    }
  }

  /** In any run, a breach that was given a task fires again at a long-enough sample exactly
      if its key is not marked; and then a task of it is still under way, or the last store
      found no open incident. */
  lemma FiresAgainIff(actions: seq<Action>, n: nat)
    requires InOrder(actions) && n < |actions| && Decides(Runs(actions, n), actions[n])
    requires LongEnough(Runs(actions, n), actions[n]) && Key(actions[n].rule.id, actions[n].node) in Runs(actions, n).asked
    ensures var w, k := Runs(actions, n), Key(actions[n].rule.id, actions[n].node);
            (FiresAgain(w, actions[n]) <==> !PhaseIn(w, k).fired) &&
            (FiresAgain(w, actions[n]) ==> UnderWay(w, k) || k in w.emptied)
  {
    RunAskedMeans(actions, n, Key(actions[n].rule.id, actions[n].node));
  }

  // ----- Marks and tasks belong to breaches that were given a task

  /** A number given to a task or a mark is not above the latest breach; if it is that of the
      breach in progress, that breach was given a task. */
  ghost predicate Given(w: World, k: Key, breach: nat) {
    breach <= Latest(w, k) && (breach == Latest(w, k) && k in w.breached ==> k in w.asked)
  }

  ghost predicate Honest(w: World) {
    (forall t :: t in w.tasks ==> Given(w, KeyOf(w.tasks[t]), w.tasks[t].breach)) &&
    (forall k :: k in w.marked ==> Given(w, k, w.marked[k]))
  }

  lemma BeginIsHonest(w: World, b: Key, reading: int)
    requires Honest(w)
    ensures Honest(Begin(w, b, reading))
  {
  }

  lemma AskIsHonest(w: World, task: int, rule: Rule, node: string)
    requires Honest(w)
    ensures Honest(Ask(w, task, rule, node))
  {
  }

  lemma EndIsHonest(w: World, b: Key)
    requires Honest(w)
    ensures Honest(End(w, b))
  {
  }

  lemma StoreIsHonest(w: World, task: int)
    requires Honest(w) && task in w.tasks
    ensures Honest(StoreIn(w, task))
  {
  }

  lemma DecideIsHonest(w: World, task: int, reading: int, rule: Rule, node: string, breach: bool)
    requires Honest(w)
    ensures Honest(DecideIn(w, task, reading, rule, node, breach))
  {
    var b := Key(rule.id, node);
    EndIsHonest(w, b);
    BeginIsHonest(w, b, reading);
    AskIsHonest(if b in w.breached then w else Begin(w, b, reading), task, rule, node);
  }

  lemma AdvanceIsHonest(w: World, v: World)
    requires Honest(w) && Advances(w, v)
    ensures Honest(v)
  {
  }

  lemma ActIsHonest(w: World, a: Action)
    requires Honest(w)
    ensures Honest(Act(w, a))
  {
    if a.Decide? && a.task !in w.tasks {
      DecideIsHonest(w, a.task, a.reading, a.rule, a.node, a.breach);
    } else if Stores(w, a) {
      StoreIsHonest(w, a.task);
    } else {
      ActAdvances(w, a);
      AdvanceIsHonest(w, Act(w, a));
    }
  }

  lemma {:induction false} RunIsHonest(actions: seq<Action>, n: nat)
    requires n <= |actions|
    ensures Honest(Runs(actions, n))
  {
    if n > 0 {
      RunIsHonest(actions, n - 1);
      ActIsHonest(Runs(actions, n - 1), actions[n - 1]);
    }
  }

  /** In a run without stale stores so far, a long-enough sample of a breach fires unless a task
      given to that very breach has stored its incident. */
  lemma SilentOnlyByOwnBreach(actions: seq<Action>, n: nat)
    requires InOrder(actions) && n < |actions| && forall j :: 0 <= j < n ==> !StaleAt(actions, j)
    requires Decides(Runs(actions, n), actions[n]) && LongEnough(Runs(actions, n), actions[n])
    ensures var w, a := Runs(actions, n), actions[n]; var k := Key(a.rule.id, a.node);
            a.task in Act(w, a).tasks <==>
            !(PhaseIn(w, k).fired && k in w.marked && w.marked[k] == Latest(w, k) && k in w.asked)
  {
    var w, a := Runs(actions, n), actions[n];
    var k := Key(a.rule.id, a.node);
    RunOwnBreachIff(actions, n);
    RunIsHonest(actions, n);
    assert OwnAt(actions, n) && OwnMark(w, k);
    DecideAsks(w, a.task, a.reading, a.rule, a.node, true);
    assert k in w.marked ==> Given(w, k, w.marked[k]);
  }

  // ----- Runs in which it happens

  /** The table after a rule's first incident. */
  function Opened(rule: Rule, node: string): Db {
    Create(EMPTY, 1, node, rule.severity, rule.title, "")
  }

  lemma OpenedHasRow(rule: Rule, node: string)
    ensures FindOpen(Opened(rule, node), node, rule.title) == Some(1)
  {
    assert FindOpen(EMPTY, node, rule.title) == None;
    assert Matches(Opened(rule, node), 1, node, rule.title);
  }

  function SuppressingRun(rule: Rule, node: string): seq<Action> {
    [Decide(1, 1, Clock.SECOND, rule, node, true), CreateStep(1, 1, ""), Decide(2, 2, 2 * Clock.SECOND, rule, node, false),
     MarkStep(1, 3), StoreStep(1, 3), Decide(3, 4, 4 * Clock.SECOND, rule, node, true)]
  }

  function SuppressingAboutToStore(rule: Rule, node: string): World {
    START.(db := Opened(rule, node), firing := map[Key(rule.id, node) := 0], breaches := map[Key(rule.id, node) := 1],
           tasks := map[1 := ToStore(rule, node, 1)], lastFired := map[rule.id := 3])
  }

  lemma SuppressingRunBegins(rule: Rule, node: string)
    requires rule.forSeconds <= 0
    ensures Runs(SuppressingRun(rule, node), 4) == SuppressingAboutToStore(rule, node)
  {
    var k, actions := Key(rule.id, node), SuppressingRun(rule, node);
    var w1 := START.(breached := map[k := Clock.SECOND], breaches := map[k := 1], tasks := map[1 := ToCreate(rule, node, 1)], asked := {k});
    assert Runs(actions, 0) == START && Act(START, actions[0]) == w1 == Runs(actions, 1);
    var w2 := w1.(db := Opened(rule, node), tasks := map[1 := ToMark(rule, node, 1)]);
    assert Act(w1, actions[1]) == w2 == Runs(actions, 2);
    var w3 := w2.(breached := map[], firing := map[k := 0], asked := {});
    assert Act(w2, actions[2]) == w3 == Runs(actions, 3);
    assert Act(w3, actions[3]) == SuppressingAboutToStore(rule, node);
  }

  /** One heartbeat decides to fire, the next is back inside before the first stores its id:
      the rule is marked with no breach in progress, and the next breach does not fire. */
  lemma LateStoreSuppressesNextBreach(rule: Rule, node: string)
    requires rule.forSeconds <= 0
    ensures var actions := SuppressingRun(rule, node);
            InOrder(actions) && StaleAt(actions, 4) && Runs(actions, 6).tasks == map[]
  {
    var k, actions := Key(rule.id, node), SuppressingRun(rule, node);
    SuppressingRunBegins(rule, node);
    var w4 := SuppressingAboutToStore(rule, node);
    OpenedHasRow(rule, node);
    assert StaleAt(actions, 4);
    StaleStoreSilences(actions, 4, 5, k);
    assert Runs(actions, 5).tasks == map[] by {
      assert Act(w4, actions[4]) == Runs(actions, 5);
    }
  }

  function LateRun(rule: Rule, node: string, again: int): seq<Action> {
    [Decide(0, 1, Clock.SECOND, rule, node, true), Decide(1, 1, 11 * Clock.SECOND, rule, node, true), CreateStep(1, 1, ""),
     Decide(2, 2, 20 * Clock.SECOND, rule, node, false), Decide(3, 3, again, rule, node, true), MarkStep(1, 3),
     StoreStep(1, 3), Decide(4, 4, 45 * Clock.SECOND, rule, node, true)]
  }

  /** The incident of the first breach is created, its id not stored yet. */
  function LateCreated(rule: Rule, node: string): World {
    var k := Key(rule.id, node);
    START.(db := Opened(rule, node), breached := map[k := Clock.SECOND], breaches := map[k := 1], tasks := map[1 := ToMark(rule, node, 1)], asked := {k})
  }

  /** The second breach is in progress, the first one's task about to store its id. */
  function LateAboutToStore(rule: Rule, node: string, again: int): World {
    var k := Key(rule.id, node);
    START.(db := Opened(rule, node), breached := map[k := again], breaches := map[k := 2], firing := map[k := 0],
           tasks := map[1 := ToStore(rule, node, 1)], lastFired := map[rule.id := 3])
  }

  lemma LateRunCreates(rule: Rule, node: string, again: int)
    requires rule.forSeconds == 10
    ensures Runs(LateRun(rule, node, again), 3) == LateCreated(rule, node)
  {
    var k, actions := Key(rule.id, node), LateRun(rule, node, again);
    var w1 := START.(breached := map[k := Clock.SECOND], breaches := map[k := 1]);
    assert Runs(actions, 0) == START && Act(START, actions[0]) == w1 == Runs(actions, 1);
    var w2 := w1.(tasks := map[1 := ToCreate(rule, node, 1)], asked := {k});
    assert Act(w1, actions[1]) == w2 == Runs(actions, 2);
    assert Act(w2, actions[2]) == LateCreated(rule, node);
  }

  /** The first breach is over and the second has begun. */
  function LateBegun(rule: Rule, node: string, again: int): World {
    var k := Key(rule.id, node);
    START.(db := Opened(rule, node), breached := map[k := again], breaches := map[k := 2], firing := map[k := 0],
           tasks := map[1 := ToMark(rule, node, 1)])
  }

  lemma LateRunEnds(rule: Rule, node: string, again: int)
    requires rule.forSeconds == 10
    ensures Runs(LateRun(rule, node, again), 5) == LateBegun(rule, node, again)
  {
    var k, actions := Key(rule.id, node), LateRun(rule, node, again);
    LateRunCreates(rule, node, again);
    var w3 := LateCreated(rule, node);
    var w4 := w3.(breached := map[], firing := map[k := 0], asked := {});
    assert Act(w3, actions[3]) == w4 == Runs(actions, 4);
    assert Act(w4, actions[4]) == LateBegun(rule, node, again);
  }

  lemma LateRunBegins(rule: Rule, node: string, again: int)
    requires rule.forSeconds == 10
    ensures Runs(LateRun(rule, node, again), 6) == LateAboutToStore(rule, node, again)
  {
    var actions := LateRun(rule, node, again);
    LateRunEnds(rule, node, again);
    assert Act(LateBegun(rule, node, again), actions[5]) == LateAboutToStore(rule, node, again);
  }

  /** The late store may also land after the next breach began: ten seconds into the first
      breach a task is asked for, and its id is stored during the second, which was never given
      a task and then stays silent although it has lasted long enough; even if its reading is
      the very one at which the first began. */
  lemma LateStoreSilencesBreachInProgress(rule: Rule, node: string, again: int)
    requires rule.forSeconds == 10 && Clock.WholeSeconds(45 * Clock.SECOND - again) >= 10
    ensures var actions := LateRun(rule, node, again);
            InOrder(actions) && StaleAt(actions, 6) && LongEnough(Runs(actions, 7), actions[7]) && Runs(actions, 8).tasks == map[] &&
            Key(rule.id, node) !in Runs(actions, 8).asked
  {
    var k, actions := Key(rule.id, node), LateRun(rule, node, again);
    LateRunBegins(rule, node, again);
    var w6 := LateAboutToStore(rule, node, again);
    OpenedHasRow(rule, node);
    assert StaleAt(actions, 6);
    StaleStoreSilences(actions, 6, 7, k);
    assert Runs(actions, 7).tasks == map[] && Runs(actions, 7).breached == w6.breached && Runs(actions, 7).asked == {} by {
      assert Act(w6, actions[6]) == Runs(actions, 7);
    }
  }

  /** Two heartbeats of one breach, decided before either task has stored its id. */
  lemma TwoDecisionsFireTwice(rule: Rule, node: string)
    requires rule.forSeconds <= 0
    ensures var actions := [Decide(1, 1, Clock.SECOND, rule, node, true), Decide(2, 1, Clock.SECOND, rule, node, true)];
            InOrder(actions) && FiresAgain(Runs(actions, 1), actions[1]) && UnderWay(Runs(actions, 1), Key(rule.id, node))
  {
    var k := Key(rule.id, node);
    var actions := [Decide(1, 1, Clock.SECOND, rule, node, true), Decide(2, 1, Clock.SECOND, rule, node, true)];
    var w1 := START.(breached := map[k := Clock.SECOND], breaches := map[k := 1], tasks := map[1 := ToCreate(rule, node, 1)], asked := {k});
    assert Runs(actions, 0) == START && Act(START, actions[0]) == w1 == Runs(actions, 1);
    assert KeyOf(w1.tasks[1]) == k;
  }

  function RearmingRun(rule: Rule, node: string): seq<Action> {
    [Decide(1, 1, Clock.SECOND, rule, node, true), CreateStep(1, 1, ""), MarkStep(1, 1),
     Other(OpAutoResolve(2, 1, "")), StoreStep(1, 3), Decide(2, 4, 4 * Clock.SECOND, rule, node, true)]
  }

  function RearmingAboutToStore(rule: Rule, node: string): World {
    var k := Key(rule.id, node);
    START.(db := Close(Opened(rule, node), 2, 1, "", true), breached := map[k := Clock.SECOND], breaches := map[k := 1],
           tasks := map[1 := ToStore(rule, node, 1)], lastFired := map[rule.id := 1], asked := {k})
  }

  lemma RearmingRunBegins(rule: Rule, node: string)
    requires rule.forSeconds <= 0
    ensures Runs(RearmingRun(rule, node), 4) == RearmingAboutToStore(rule, node)
  {
    var k, actions := Key(rule.id, node), RearmingRun(rule, node);
    var w1 := START.(breached := map[k := Clock.SECOND], breaches := map[k := 1], tasks := map[1 := ToCreate(rule, node, 1)], asked := {k});
    assert Runs(actions, 0) == START && Act(START, actions[0]) == w1 == Runs(actions, 1);
    var w2 := w1.(db := Opened(rule, node), tasks := map[1 := ToMark(rule, node, 1)]);
    assert Act(w1, actions[1]) == w2 == Runs(actions, 2);
    var w3 := w2.(lastFired := map[rule.id := 1], tasks := map[1 := ToStore(rule, node, 1)]);
    assert Act(w2, actions[2]) == w3 == Runs(actions, 3);
    assert Act(w3, actions[3]) == RearmingAboutToStore(rule, node);
  }

  /** The incident is closed before the task stores its id: the rule is re-armed within the
      same breach, and the next sample of it fires again. */
  lemma ClosedRowRearms(rule: Rule, node: string)
    requires rule.forSeconds <= 0
    ensures var actions := RearmingRun(rule, node);
            InOrder(actions) && FiresAgain(Runs(actions, 5), actions[5]) && Key(rule.id, node) in Runs(actions, 5).emptied
  {
    var k, actions := Key(rule.id, node), RearmingRun(rule, node);
    RearmingRunBegins(rule, node);
    var w4 := RearmingAboutToStore(rule, node);
    OpenedHasRow(rule, node);
    assert forall id :: !Matches(w4.db, id, node, rule.title);
    assert FindOpen(w4.db, node, rule.title) == None;
    var w5 := w4.(firing := map[k := 0], emptied := {k}, tasks := map[]);
    assert Act(w4, actions[4]) == w5 == Runs(actions, 5);
  }

  function SweptRun(rule: Rule, node: string): seq<Action> {
    [Decide(1, 1, Clock.SECOND, rule, node, true), CreateStep(1, 1, ""), MarkStep(1, 1), StoreStep(1, 1),
     Other(OpAutoResolve(2, 1, "")), Decide(2, 3, 3 * Clock.SECOND, rule, node, true)]
  }

  lemma SweptRunFires(rule: Rule, node: string)
    requires rule.forSeconds <= 0
    ensures var w := Runs(SweptRun(rule, node), 4);
            w.db == Opened(rule, node) && w.tasks == map[] && PhaseIn(w, Key(rule.id, node)) == Phase(Some(Clock.SECOND), true)
  {
    var k, actions := Key(rule.id, node), SweptRun(rule, node);
    var w1 := START.(breached := map[k := Clock.SECOND], breaches := map[k := 1], tasks := map[1 := ToCreate(rule, node, 1)], asked := {k});
    assert Runs(actions, 0) == START && Act(START, actions[0]) == w1 == Runs(actions, 1);
    var w2 := w1.(db := Opened(rule, node), tasks := map[1 := ToMark(rule, node, 1)]);
    assert Act(w1, actions[1]) == w2 == Runs(actions, 2);
    var w3 := w2.(lastFired := map[rule.id := 1], tasks := map[1 := ToStore(rule, node, 1)]);
    assert Act(w2, actions[2]) == w3 == Runs(actions, 3);
    OpenedHasRow(rule, node);
    assert Act(w3, actions[3]) == Runs(actions, 4);
  }

  lemma SweptRunCloses(rule: Rule, node: string)
    requires rule.forSeconds <= 0
    ensures var w, v := Runs(SweptRun(rule, node), 4), Runs(SweptRun(rule, node), 5);
            v == w.(db := Close(Opened(rule, node), 2, 1, "", true)) && OpenAt(w.db, 1) && !OpenAt(v.db, 1) &&
            FindOpen(v.db, node, rule.title) == None
  {
    SweptRunFires(rule, node);
    OpenedHasRow(rule, node);
    var actions := SweptRun(rule, node);
    assert Runs(actions, 5) == Act(Runs(actions, 4), actions[4]);
    assert forall id :: !Matches(Runs(actions, 5).db, id, node, rule.title);
  }

  /** An incident closed while its breach goes on: the next sample raises nothing. */
  lemma SweptIsNotRaisedAgain(rule: Rule, node: string)
    requires rule.forSeconds <= 0
    ensures var actions := SweptRun(rule, node);
            InOrder(actions) && FindOpen(Runs(actions, 6).db, node, rule.title) == None && Runs(actions, 6).tasks == map[] &&
            LongEnough(Runs(actions, 5), actions[5])
  {
    var k, actions := Key(rule.id, node), SweptRun(rule, node);
    SweptRunFires(rule, node);
    SweptRunCloses(rule, node);
    assert PhaseIn(Runs(actions, 5), k) == PhaseIn(Runs(actions, 4), k);
    ClosedStaysSilent(actions, 4, 5, k, 1);
    ActIsTableOp(Runs(actions, 5), actions[5]);
  }
}
