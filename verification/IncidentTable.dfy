/** The incidents table, one statement or one locked section at a time: what each
    operation does to the rows, which notifications it attempts, and what every run of
    such operations, in any order, keeps. Times are unix seconds. */
module IncidentTable {
  import opened Options

  datatype Row = Row(
    node: string, severity: string, title: string, detail: string,
    startedAt: int, resolved: bool, resolvedAt: int, reason: string,
    lastNotified: int, snoozedUntil: int, acknowledgedAt: int)

  /** The notification log. `Fired` is one attempt to notify about an open row;
      `Closed` is a move from open to resolved, announced only if `announced`. */
  datatype Event =
    | Fired(id: int, at: int, severity: string)
    | Snoozed(id: int, at: int, until: int)
    | Closed(id: int, at: int, announced: bool)

  datatype Db = Db(rows: map<int, Row>, nextId: int, log: seq<Event>)

  const EMPTY := Db(map[], 1, [])

  function CooldownFor(severity: string): int {
    if severity == "critical" then 60 else 300
  }

  predicate OpenAt(db: Db, id: int) {
    id in db.rows && !db.rows[id].resolved
  }

  predicate Matches(db: Db, id: int, node: string, title: string) {
    OpenAt(db, id) && db.rows[id].node == node && db.rows[id].title == title
  }

  /** The open row of (node, title) with the highest id below `n`. */
  function OpenBelow(db: Db, node: string, title: string, n: int): (r: Option<int>)
    ensures r.Some? ==> r.value < n && Matches(db, r.value, node, title)
    ensures r.Some? ==> forall id :: r.value < id < n ==> !Matches(db, id, node, title)
    decreases n
  {
    if n <= 0 then None
    else if Matches(db, n - 1, node, title) then Some(n - 1)
    else OpenBelow(db, node, title, n - 1)
  }

  function FindOpen(db: Db, node: string, title: string): Option<int> {
    OpenBelow(db, node, title, db.nextId)
  }

  // ----- The operations

  function Create(db: Db, now: int, node: string, severity: string, title: string, detail: string): Db {
    match FindOpen(db, node, title)
    case None =>
      var row := Row(node, severity, title, detail, now, false, 0, "", now, 0, 0);
      Db(db.rows[db.nextId := row], db.nextId + 1, db.log + [Fired(db.nextId, now, severity)])
    case Some(id) =>
      var row := db.rows[id].(detail := detail);
      if row.snoozedUntil <= now && (row.lastNotified == 0 || now - row.lastNotified >= CooldownFor(severity)) then
        db.(rows := db.rows[id := row.(lastNotified := now)], log := db.log + [Fired(id, now, severity)])
      else
        db.(rows := db.rows[id := row])
  }

  /** Close one row if it is open; only then is anything announced. */
  function Close(db: Db, now: int, id: int, reason: string, announced: bool): Db {
    if OpenAt(db, id) then
      db.(rows := db.rows[id := db.rows[id].(resolved := true, resolvedAt := now, reason := reason)],
          log := db.log + [Closed(id, now, announced)])
    else db
  }

  /** A manual resolution is not limited to open rows: it restamps a resolved one. */
  function ManualResolve(db: Db, now: int, id: int, permitted: bool): Db {
    if id !in db.rows || !permitted then db
    else if OpenAt(db, id) then Close(db, now, id, "manual", false)
    else db.(rows := db.rows[id := db.rows[id].(resolvedAt := now, reason := "manual")])
  }

  /** `until` counts from a first clock reading, the notification stamp is a second one. */
  function Snooze(db: Db, first: int, second: int, id: int, seconds: int): Db {
    if seconds <= 0 || 24 * 3600 < seconds || !OpenAt(db, id) then db
    else
      db.(rows := db.rows[id := db.rows[id].(snoozedUntil := first + seconds, lastNotified := second)],
          log := db.log + [Snoozed(id, second, first + seconds)])
  }

  function Acknowledge(db: Db, now: int, id: int): Db {
    if OpenAt(db, id) && db.rows[id].acknowledgedAt == 0 then
      db.(rows := db.rows[id := db.rows[id].(acknowledgedAt := now)])
    else db
  }

  /** Resolved rows past the retention window are deleted; open rows never are. */
  function Prune(db: Db, cutoff: int): Db {
    db.(rows := map id | id in db.rows && !(db.rows[id].resolved && 0 < db.rows[id].resolvedAt < cutoff) :: db.rows[id])
  }

  datatype Op =
    | OpCreate(at: int, node: string, severity: string, title: string, detail: string)
    | OpAutoResolve(at: int, id: int, reason: string)
    | OpManualResolve(at: int, id: int, permitted: bool)
    | OpSnooze(first: int, at: int, id: int, seconds: int)
    | OpAcknowledge(at: int, id: int)
    | OpMaintenanceClose(at: int, id: int)
    | OpPrune(at: int, cutoff: int)

  function Step(db: Db, op: Op): Db {
    match op
    case OpCreate(at, node, severity, title, detail) => Create(db, at, node, severity, title, detail)
    case OpAutoResolve(at, id, reason) => Close(db, at, id, reason, true)
    case OpManualResolve(at, id, permitted) => ManualResolve(db, at, id, permitted)
    case OpSnooze(first, at, id, seconds) => Snooze(db, first, at, id, seconds)
    case OpAcknowledge(at, id) => Acknowledge(db, at, id)
    case OpMaintenanceClose(at, id) => Close(db, at, id, "maintenance", false)
    case OpPrune(_, cutoff) => Prune(db, cutoff)
  }

  function Run(db: Db, ops: seq<Op>, n: nat): Db
    requires n <= |ops|
  {
    if n == 0 then db else Step(Run(db, ops, n - 1), ops[n - 1])
  }

  /** The clock readings of the operations never go back and are past the epoch. */
  ghost predicate Timed(ops: seq<Op>) {
    forall j :: 0 <= j < |ops| ==> TimedAt(ops, j)
  }

  ghost predicate TimedAt(ops: seq<Op>, j: nat)
    requires j < |ops|
  {
    0 < ops[j].at && (j > 0 ==> ops[j - 1].at <= ops[j].at) &&
    (ops[j].OpSnooze? ==> (j > 0 ==> ops[j - 1].at <= ops[j].first) && 0 < ops[j].first <= ops[j].at)
  }

  // ----- What the log must satisfy

  /** The deadline of the latest snooze of `id` among the first `n` events; 0 if none. */
  function SnoozeInForce(log: seq<Event>, n: nat, id: int): int
    requires n <= |log|
  {
    if n == 0 then 0
    else if log[n - 1].Snoozed? && log[n - 1].id == id then log[n - 1].until
    else SnoozeInForce(log, n - 1, id)
  }

  /** When `id` was last notified about or snoozed, by the first `n` events; 0 if never. */
  function LastStamp(log: seq<Event>, n: nat, id: int): int
    requires n <= |log|
  {
    if n == 0 then 0
    else if !log[n - 1].Closed? && log[n - 1].id == id then log[n - 1].at
    else LastStamp(log, n - 1, id)
  }

  /** An attempt comes a full cooldown after every earlier attempt and snooze of its row,
      not before the snooze deadline in force, and not after the row was closed. */
  ghost predicate FiredWell(log: seq<Event>, j: nat)
    requires j < |log| && log[j].Fired?
  {
    && SnoozeInForce(log, j, log[j].id) <= log[j].at
    && forall i :: 0 <= i < j && log[i].id == log[j].id ==>
         !log[i].Closed? && log[j].at - log[i].at >= CooldownFor(log[j].severity)
  }

  /** A row is closed once. */
  ghost predicate ClosedOnce(log: seq<Event>, j: nat)
    requires j < |log|
  {
    forall i :: 0 <= i < j && log[i].id == log[j].id ==> !log[i].Closed?
  }

  ghost predicate WellAt(log: seq<Event>, j: nat)
    requires j < |log|
  {
    (log[j].Fired? ==> FiredWell(log, j)) && ClosedOnce(log, j)
  }

  ghost predicate LogWell(log: seq<Event>) {
    forall j :: 0 <= j < |log| ==> WellAt(log, j)
  }

  // ----- The invariant

  /** At most one of any two rows is open for the same (node, title). */
  ghost predicate Apart(db: Db, i: int, j: int) {
    i != j && OpenAt(db, i) && OpenAt(db, j) ==> db.rows[i].node != db.rows[j].node || db.rows[i].title != db.rows[j].title
  }

  ghost predicate RowWell(db: Db, id: int, clock: int)
    requires id in db.rows
  {
    var row := db.rows[id];
    0 < id < db.nextId && 0 < row.lastNotified <= clock && 0 < row.startedAt <= clock &&
    row.snoozedUntil == SnoozeInForce(db.log, |db.log|, id) && row.lastNotified == LastStamp(db.log, |db.log|, id)
  }

  ghost predicate EventWell(db: Db, k: nat, clock: int)
    requires k < |db.log|
  {
    var e := db.log[k];
    0 < e.id < db.nextId && e.at <= clock &&
    (e.id in db.rows ==> if e.Closed? then db.rows[e.id].resolved else e.at <= db.rows[e.id].lastNotified)
  }

  ghost predicate Inv(db: Db, clock: int) {
    && 0 < db.nextId
    && (forall i, j :: Apart(db, i, j))
    && (forall id :: id in db.rows ==> RowWell(db, id, clock))
    && (forall k :: 0 <= k < |db.log| ==> EventWell(db, k, clock))
    && LogWell(db.log)
  }

  // ----- Lookups

  lemma {:induction false} OpenBelowMean(db: Db, node: string, title: string, n: int)
    ensures OpenBelow(db, node, title, n) == None ==> forall id :: 0 <= id < n ==> !Matches(db, id, node, title)
    decreases n
  {
    if n > 0 && !Matches(db, n - 1, node, title) {
      OpenBelowMean(db, node, title, n - 1);
    }
  }

  /** In a table that satisfies the invariant, the lookup finds the one open row, if any. */
  lemma FindOpenMeans(db: Db, clock: int, node: string, title: string)
    requires Inv(db, clock)
    ensures forall id :: Matches(db, id, node, title) <==> FindOpen(db, node, title) == Some(id)
  {
    OpenBelowMean(db, node, title, db.nextId);
    forall id: int | Matches(db, id, node, title)
      ensures FindOpen(db, node, title) == Some(id)
    {
      assert RowWell(db, id, clock);
      assert Apart(db, id, FindOpen(db, node, title).value);
    }
  }

  // ----- Appending to the log

  lemma {:induction false} SnoozePrefix(log: seq<Event>, more: seq<Event>, n: nat, id: int)
    requires n <= |log| && n <= |more| && forall i :: 0 <= i < n ==> log[i] == more[i]
    ensures SnoozeInForce(log, n, id) == SnoozeInForce(more, n, id) && LastStamp(log, n, id) == LastStamp(more, n, id)
  {
    if n > 0 {
      SnoozePrefix(log, more, n - 1, id);
    }
  }

  lemma LogAppend(log: seq<Event>, e: Event)
    requires LogWell(log)
    requires forall i :: 0 <= i < |log| && log[i].id == e.id ==> !log[i].Closed?
    requires e.Fired? ==> SnoozeInForce(log, |log|, e.id) <= e.at
    requires e.Fired? ==> forall i :: 0 <= i < |log| && log[i].id == e.id ==> e.at - log[i].at >= CooldownFor(e.severity)
    ensures LogWell(log + [e])
  {
    var more := log + [e];
    forall j | 0 <= j < |more|
      ensures WellAt(more, j)
    {
      SnoozePrefix(log, more, j, more[j].id);
      if j < |log| {
        assert WellAt(log, j);
      }
    }
  }

  lemma StampsAppend(log: seq<Event>, e: Event, id: int)
    ensures SnoozeInForce(log + [e], |log| + 1, id) == if e.Snoozed? && e.id == id then e.until else SnoozeInForce(log, |log|, id)
    ensures LastStamp(log + [e], |log| + 1, id) == if !e.Closed? && e.id == id then e.at else LastStamp(log, |log|, id)
  {
    SnoozePrefix(log, log + [e], |log|, id);
  }

  /** A row that is open was never closed. */
  lemma OpenNeverClosed(db: Db, clock: int, id: int)
    requires Inv(db, clock) && OpenAt(db, id)
    ensures forall i :: 0 <= i < |db.log| && db.log[i].id == id ==> !db.log[i].Closed? && db.log[i].at <= db.rows[id].lastNotified
  {
    forall i | 0 <= i < |db.log| && db.log[i].id == id
      ensures !db.log[i].Closed? && db.log[i].at <= db.rows[id].lastNotified
    {
      assert EventWell(db, i, clock);
    }
  }

  /** The shape shared by the operations on one row: the row keeps its identity, may be
      closed but not reopened, and at most one event about it is logged. */
  ghost predicate TouchesRow(db: Db, r: Db, id: int, e: Option<Event>, clock: int) {
    && id in db.rows && r.rows.Keys == db.rows.Keys && r.nextId == db.nextId
    && (forall k :: k in db.rows && k != id ==> r.rows[k] == db.rows[k])
    && r.rows[id].node == db.rows[id].node && r.rows[id].title == db.rows[id].title
    && r.rows[id].startedAt == db.rows[id].startedAt
    && (db.rows[id].resolved ==> r.rows[id].resolved)
    && r.rows[id].lastNotified == (if e.Some? && !e.value.Closed? then e.value.at else db.rows[id].lastNotified)
    && db.rows[id].lastNotified <= r.rows[id].lastNotified <= clock
    && r.log == (match e case None => db.log case Some(x) => db.log + [x])
    && (e.Some? ==> e.value.id == id && e.value.at <= clock && OpenAt(db, id))
    && (e.Some? && e.value.Closed? ==> r.rows[id].resolved)
    && r.rows[id].snoozedUntil == (if e.Some? && e.value.Snoozed? then e.value.until else db.rows[id].snoozedUntil)
    && (e.Some? && e.value.Fired? ==>
         db.rows[id].snoozedUntil <= e.value.at && e.value.at - db.rows[id].lastNotified >= CooldownFor(e.value.severity))
  }

  lemma TouchKeepsInv(db: Db, r: Db, id: int, e: Option<Event>, was: int, clock: int)
    requires Inv(db, was) && was <= clock && TouchesRow(db, r, id, e, clock)
    ensures Inv(r, clock)
  {
    assert RowWell(db, id, was);
    if e.Some? {
      OpenNeverClosed(db, was, id);
      LogAppend(db.log, e.value);
    }
    forall i, j
      ensures Apart(r, i, j)
    {
      assert Apart(db, i, j);
    }
    forall k | k in r.rows
      ensures RowWell(r, k, clock)
    {
      assert RowWell(db, k, was);
      if e.Some? {
        StampsAppend(db.log, e.value, k);
      }
    }
    forall k | 0 <= k < |r.log|
      ensures EventWell(r, k, clock)
    {
      assert k < |db.log| ==> EventWell(db, k, was);
    }
  }

  lemma InsertKeepsInv(db: Db, r: Db, row: Row, was: int, now: int)
    requires Inv(db, was) && was <= now && 0 < now
    requires FindOpen(db, row.node, row.title) == None
    requires !row.resolved && row.startedAt == now == row.lastNotified && row.snoozedUntil == 0
    requires r == Db(db.rows[db.nextId := row], db.nextId + 1, db.log + [Fired(db.nextId, now, row.severity)])
    ensures Inv(r, now)
  {
    var id := db.nextId;
    FindOpenMeans(db, was, row.node, row.title);
    NeverLogged(db, was, id, |db.log|);
    LogAppend(db.log, Fired(id, now, row.severity));
    forall i, j
      ensures Apart(r, i, j)
    {
      assert Apart(db, i, j);
      assert i != id && OpenAt(r, i) ==> OpenAt(db, i) && !Matches(db, i, row.node, row.title);
      assert j != id && OpenAt(r, j) ==> OpenAt(db, j) && !Matches(db, j, row.node, row.title);
    }
    forall k | k in r.rows
      ensures RowWell(r, k, now)
    {
      assert k != id ==> RowWell(db, k, was);
      StampsAppend(db.log, Fired(id, now, row.severity), k);
    }
    forall k | 0 <= k < |r.log|
      ensures EventWell(r, k, now)
    {
      assert k < |db.log| ==> EventWell(db, k, was);
    }
  }

  lemma {:induction false} NeverLogged(db: Db, clock: int, id: int, n: nat)
    requires Inv(db, clock) && db.nextId <= id && n <= |db.log|
    ensures forall i :: 0 <= i < n ==> db.log[i].id != id
    ensures SnoozeInForce(db.log, n, id) == 0 && LastStamp(db.log, n, id) == 0
  {
    if n > 0 {
      NeverLogged(db, clock, id, n - 1);
      assert EventWell(db, n - 1, clock);
    }
  }

  lemma PruneKeepsInv(db: Db, cutoff: int, was: int, clock: int)
    requires Inv(db, was) && was <= clock
    ensures Inv(Prune(db, cutoff), clock)
  {
    var r := Prune(db, cutoff);
    forall i, j
      ensures Apart(r, i, j)
    {
      assert Apart(db, i, j);
    }
    forall k | k in r.rows
      ensures RowWell(r, k, clock)
    {
      assert RowWell(db, k, was);
    }
    forall k | 0 <= k < |r.log|
      ensures EventWell(r, k, clock)
    {
      assert EventWell(db, k, was);
    }
  }

  lemma LaterKeepsInv(db: Db, was: int, clock: int)
    requires Inv(db, was) && was <= clock
    ensures Inv(db, clock)
  {
    forall k | k in db.rows
      ensures RowWell(db, k, clock)
    {
      assert RowWell(db, k, was);
    }
    forall k | 0 <= k < |db.log|
      ensures EventWell(db, k, clock)
    {
      assert EventWell(db, k, was);
    }
  }

  lemma CreateKeepsInv(db: Db, was: int, now: int, node: string, severity: string, title: string, detail: string)
    requires Inv(db, was) && was <= now && 0 < now
    ensures Inv(Create(db, now, node, severity, title, detail), now)
  {
    var r := Create(db, now, node, severity, title, detail);
    var found := FindOpen(db, node, title);
    FindOpenMeans(db, was, node, title);
    if found == None {
      InsertKeepsInv(db, r, Row(node, severity, title, detail, now, false, 0, "", now, 0, 0), was, now);
    } else {
      var id := found.value;
      assert Matches(db, id, node, title) && RowWell(db, id, was);
      TouchKeepsInv(db, r, id, if r.log == db.log then None else Some(Fired(id, now, severity)), was, now);
    }
  }

  lemma CloseKeepsInv(db: Db, was: int, now: int, id: int, reason: string, announced: bool)
    requires Inv(db, was) && was <= now
    ensures Inv(Close(db, now, id, reason, announced), now)
  {
    LaterKeepsInv(db, was, now);
    if OpenAt(db, id) {
      assert RowWell(db, id, was);
      TouchKeepsInv(db, Close(db, now, id, reason, announced), id, Some(Closed(id, now, announced)), was, now);
    }
  }

  /** Every operation, whoever performs it, keeps the invariant. */
  lemma StepKeepsInv(db: Db, op: Op, was: int)
    requires Inv(db, was) && was <= op.at && 0 < op.at
    requires op.OpSnooze? ==> op.first <= op.at
    ensures Inv(Step(db, op), op.at)
  {
    LaterKeepsInv(db, was, op.at);
    match op
    case OpCreate(at, node, severity, title, detail) =>
      CreateKeepsInv(db, was, at, node, severity, title, detail);
    case OpAutoResolve(at, id, reason) =>
      CloseKeepsInv(db, was, at, id, reason, true);
    case OpMaintenanceClose(at, id) =>
      CloseKeepsInv(db, was, at, id, "maintenance", false);
    case OpManualResolve(at, id, permitted) =>
      CloseKeepsInv(db, was, at, id, "manual", false);
      if id in db.rows && permitted && !OpenAt(db, id) {
        assert RowWell(db, id, was);
        TouchKeepsInv(db, Step(db, op), id, None, was, at);
      }
    case OpSnooze(first, at, id, seconds) =>
      if Step(db, op) != db {
        assert RowWell(db, id, was);
        TouchKeepsInv(db, Step(db, op), id, Some(Snoozed(id, at, first + seconds)), was, at);
      }
    case OpAcknowledge(at, id) =>
      if Step(db, op) != db {
        assert RowWell(db, id, was);
        TouchKeepsInv(db, Step(db, op), id, None, was, at);
      }
    case OpPrune(at, cutoff) =>
      PruneKeepsInv(db, cutoff, was, at);
  }

  // ----- Whole runs

  lemma {:induction false} RunKeepsInv(ops: seq<Op>, n: nat)
    requires Timed(ops) && n <= |ops|
    ensures Inv(Run(EMPTY, ops, n), if n == 0 then 0 else ops[n - 1].at)
  {
    if n > 0 {
      RunKeepsInv(ops, n - 1);
      assert TimedAt(ops, n - 1);
      assert n > 1 ==> TimedAt(ops, n - 2);
      StepKeepsInv(Run(EMPTY, ops, n - 1), ops[n - 1], if n == 1 then 0 else ops[n - 2].at);
    }
  }

  /** In every run: one open row per (node, title), and a well-behaved notification log. */
  lemma EveryRun(ops: seq<Op>, i: int, j: int, node: string, title: string)
    requires Timed(ops)
    ensures var db := Run(EMPTY, ops, |ops|);
            LogWell(db.log) && (Matches(db, i, node, title) && Matches(db, j, node, title) ==> i == j)
  {
    RunKeepsInv(ops, |ops|);
    assert Apart(Run(EMPTY, ops, |ops|), i, j);
  }

  lemma StepNeverReopens(db: Db, op: Op, id: int)
    requires id < db.nextId && !OpenAt(db, id)
    ensures id < Step(db, op).nextId && !OpenAt(Step(db, op), id)
  {
  }

  /** A row once resolved stays resolved or is deleted, and its id is never used again. */
  lemma {:induction false} NoReopening(db: Db, ops: seq<Op>, n: nat, id: int)
    requires n <= |ops| && id < db.nextId && !OpenAt(db, id)
    ensures id < Run(db, ops, n).nextId && !OpenAt(Run(db, ops, n), id)
  {
    if n > 0 {
      NoReopening(db, ops, n - 1, id);
      StepNeverReopens(Run(db, ops, n - 1), ops[n - 1], id);
    }
  }

  /** A repeated crossing notifies exactly when the snooze in force has run out and a full
      cooldown has passed since the row was last notified about or snoozed. */
  lemma RepeatNotifiesIff(db: Db, was: int, now: int, id: int, severity: string, detail: string)
    requires Inv(db, was) && was <= now && OpenAt(db, id)
    ensures var r := Create(db, now, db.rows[id].node, severity, db.rows[id].title, detail);
            var due := SnoozeInForce(db.log, |db.log|, id) <= now &&
                       now - LastStamp(db.log, |db.log|, id) >= CooldownFor(severity);
            r.log == (if due then db.log + [Fired(id, now, severity)] else db.log) &&
            r.rows == db.rows[id := db.rows[id].(detail := detail, lastNotified := if due then now else db.rows[id].lastNotified)]
  {
    assert RowWell(db, id, was);
    FindOpenMeans(db, was, db.rows[id].node, db.rows[id].title);
    assert Matches(db, id, db.rows[id].node, db.rows[id].title);
  }

  /** An incident is raised, told on the rows. Without an open row of the pair a new one is
      inserted and notified about; an open one gets the new detail, and is notified about if its
      snooze is over and its last stamp a minute old, five minutes unless critical. */
  ghost predicate Raises(db: Db, r: Db, now: int, node: string, severity: string, title: string, detail: string) {
    if forall id :: id in db.rows && db.rows[id].node == node && db.rows[id].title == title ==> db.rows[id].resolved then
      r.nextId == db.nextId + 1 && db.nextId !in db.rows && r.log == db.log + [Fired(db.nextId, now, severity)] &&
      r.rows == db.rows[db.nextId := Row(node, severity, title, detail, now, false, 0, "", now, 0, 0)]
    else
      exists id :: id in db.rows && !db.rows[id].resolved && db.rows[id].node == node && db.rows[id].title == title &&
        Refreshes(db, r, id, now, severity, detail)
  }

  ghost predicate Refreshes(db: Db, r: Db, id: int, now: int, severity: string, detail: string)
    requires id in db.rows
  {
    var row := db.rows[id];
    var due := row.snoozedUntil <= now && now - row.lastNotified >= if severity == "critical" then 60 else 300;
    r.nextId == db.nextId && r.log == (if due then db.log + [Fired(id, now, severity)] else db.log) &&
    r.rows == db.rows[id := row.(detail := detail, lastNotified := if due then now else row.lastNotified)]
  }

  lemma CreateRaises(db: Db, was: int, now: int, node: string, severity: string, title: string, detail: string)
    requires Inv(db, was) && was <= now && 0 < now
    ensures Raises(db, Create(db, now, node, severity, title, detail), now, node, severity, title, detail)
  {
    FindOpenMeans(db, was, node, title);
    match FindOpen(db, node, title)
    case None =>
      assert forall id :: id in db.rows && db.rows[id].node == node && db.rows[id].title == title ==> !Matches(db, id, node, title);
      assert db.nextId in db.rows ==> RowWell(db, db.nextId, was);
    case Some(id) =>
      assert Matches(db, id, node, title) && RowWell(db, id, was);
  }

  /** In every run two attempts to notify about one row are a minute apart, five unless the
      later one is critical; and none comes after the row was closed. */
  lemma AttemptsApart(ops: seq<Op>, i: nat, j: nat)
    requires Timed(ops) && i < j < |Run(EMPTY, ops, |ops|).log|
    ensures var log := Run(EMPTY, ops, |ops|).log;
            log[j].Fired? && log[i].id == log[j].id ==>
              !log[i].Closed? && log[j].at - log[i].at >= if log[j].severity == "critical" then 60 else 300
  {
    RunKeepsInv(ops, |ops|);
    assert WellAt(Run(EMPTY, ops, |ops|).log, j);
  }

  /** A snooze replaces the one in force, whatever deadline that had: it shortens the mute
      exactly when it ends earlier, and the next crossing goes by the new deadline alone. */
  lemma SnoozeReplaces(db: Db, was: int, first: int, second: int, id: int, seconds: int, now: int, severity: string)
    requires Inv(db, was) && was <= first <= second <= now && 0 < first
    requires OpenAt(db, id) && 0 < seconds <= 24 * 3600
    ensures var after := Snooze(db, first, second, id, seconds);
            SnoozeInForce(after.log, |after.log|, id) == first + seconds &&
            (SnoozeInForce(after.log, |after.log|, id) < SnoozeInForce(db.log, |db.log|, id)
             <==> first + seconds < db.rows[id].snoozedUntil)
    ensures var after := Snooze(db, first, second, id, seconds);
            var due := first + seconds <= now && now - second >= CooldownFor(severity);
            Create(after, now, db.rows[id].node, severity, db.rows[id].title, db.rows[id].detail).log ==
            after.log + if due then [Fired(id, now, severity)] else []
  {
    var after := Snooze(db, first, second, id, seconds);
    assert RowWell(db, id, was);
    StepKeepsInv(db, OpSnooze(first, second, id, seconds), was);
    RepeatNotifiesIff(after, second, now, id, severity, db.rows[id].detail);
  }

  /** The events a step added to the log. */
  function NewEvents(was: Db, now: Db): seq<Event> {
    if |was.log| <= |now.log| then now.log[|was.log|..] else []
  }

  /** A resolution is announced exactly by the automatic step that closes an open row. */
  lemma AnnouncedByTheCloser(db: Db, op: Op)
    ensures var r := Step(db, op);
            (exists e :: e in NewEvents(db, r) && e.Closed? && e.announced)
            <==> op.OpAutoResolve? && OpenAt(db, op.id) && !OpenAt(r, op.id)
  {
    var r := Step(db, op);
    if op.OpAutoResolve? && OpenAt(db, op.id) {
      assert NewEvents(db, r) == [Closed(op.id, op.at, true)];
      assert Closed(op.id, op.at, true) in NewEvents(db, r);
    }
  }
}
