/** The store's incident operations as they update the table in place, each proved to do
    what its function in IncidentTable says, and the composite operations (a heartbeat's
    incident part, the stale and abandoned sweeps, the silent-node watchdog) proved
    against the set of (node, title) pairs that are open. */
module IncidentStore {
  import Clock
  import Sets
  import opened Options
  import opened IncidentTable

  const MEMORY_TITLE := "High Memory Pressure"
  const CONTAINER_PREFIX := "Container Stopped: "
  const SILENT_TITLE := "Node Silent"
  const ABANDONED_TTL := 30 * Clock.MINUTE
  const SILENT_TTL := 2 * Clock.MINUTE

  datatype Service = Service(name: string, kind: string, active: bool, status: string)

  datatype Heartbeat = Heartbeat(node: string, memoryUsed: real, services: seq<Service>)

  function ContainerTitle(name: string): string {
    CONTAINER_PREFIX + name
  }

  /** The first reported service of that name, from position `from` on. */
  function FirstNamed(services: seq<Service>, name: string, from: nat): Option<Service>
    requires from <= |services|
    decreases |services| - from
  {
    if from == |services| then None
    else if services[from].name == name then Some(services[from])
    else FirstNamed(services, name, from + 1)
  }

  /** Why the heartbeat closes an incident of that title; empty if it does not.
      `now` is in nanoseconds, `startedAt` in unix seconds. */
  function ResolutionReason(title: string, hb: Heartbeat, now: int, startedAt: int): string {
    if title == MEMORY_TITLE then
      if hb.memoryUsed <= 90.0 then "auto:metric_recovered" else ""
    else if |title| > |CONTAINER_PREFIX| && title[..|CONTAINER_PREFIX|] == CONTAINER_PREFIX then
      match FirstNamed(hb.services, title[|CONTAINER_PREFIX|..], 0)
      case None => "auto:service_absent"
      case Some(s) =>
        if s.active then "auto:service_recovered"
        else if startedAt > 0 && now - startedAt * Clock.SECOND > ABANDONED_TTL then "auto:abandoned_ttl"
        else ""
    else ""
  }

  // ----- The open set

  /** When the open incident of (node, title) started; None if there is none. */
  function OpenSince(db: Db, node: string, title: string): Option<int> {
    var id := FindOpen(db, node, title);
    if id.Some? then Some(db.rows[id.value].startedAt) else None
  }

  lemma OpenSinceMeans(db: Db, clock: int, id: int, node: string, title: string)
    requires Inv(db, clock) && Matches(db, id, node, title)
    ensures OpenSince(db, node, title) == Some(db.rows[id].startedAt)
  {
    FindOpenMeans(db, clock, node, title);
  }

  /** Creating opens the pair if it was closed and disturbs no other pair. */
  lemma CreateOpens(db: Db, was: int, now: int, node: string, severity: string, title: string, detail: string, n: string, t: string)
    requires Inv(db, was) && was <= now && 0 < now
    ensures var r := Create(db, now, node, severity, title, detail);
            OpenSince(r, n, t) ==
              if n == node && t == title && OpenSince(db, n, t) == None then Some(now) else OpenSince(db, n, t)
  {
    var r := Create(db, now, node, severity, title, detail);
    CreateKeepsInv(db, was, now, node, severity, title, detail);
    FindOpenMeans(db, was, n, t);
    FindOpenMeans(r, now, n, t);
    var before := FindOpen(db, n, t);
    if before.Some? {
      assert Matches(db, before.value, n, t) && Matches(r, before.value, n, t);
    } else if n == node && t == title {
      assert Matches(r, db.nextId, n, t);
    } else {
      forall id | Matches(r, id, n, t)
        ensures false
      {
        assert Matches(db, id, n, t);
      }
    }
  }

  /** Closing a row closes its pair and disturbs no other. */
  lemma CloseCloses(db: Db, was: int, now: int, id: int, reason: string, announced: bool, n: string, t: string)
    requires Inv(db, was) && was <= now
    ensures OpenSince(Close(db, now, id, reason, announced), n, t) ==
              if Matches(db, id, n, t) then None else OpenSince(db, n, t)
  {
    var r := Close(db, now, id, reason, announced);
    CloseKeepsInv(db, was, now, id, reason, announced);
    FindOpenMeans(db, was, n, t);
    FindOpenMeans(r, now, n, t);
    var before := FindOpen(db, n, t);
    if before.Some? && !Matches(db, id, n, t) {
      assert Matches(db, before.value, n, t) && Matches(r, before.value, n, t);
    } else {
      forall k | Matches(r, k, n, t)
        ensures false
      {
        assert Matches(db, k, n, t);
      }
    }
  }

  /** A permitted manual resolution closes the pair of its row, if it is open, and no other. */
  lemma ManualCloses(db: Db, was: int, now: int, id: int, permitted: bool, n: string, t: string)
    requires Inv(db, was) && was <= now && 0 < now
    ensures OpenSince(ManualResolve(db, now, id, permitted), n, t) ==
              if id in db.rows && permitted && Matches(db, id, n, t) then None else OpenSince(db, n, t)
  {
    if OpenAt(db, id) {
      CloseCloses(db, was, now, id, "manual", false, n, t);
    } else {
      var r := ManualResolve(db, now, id, permitted);
      StepKeepsInv(db, OpManualResolve(now, id, permitted), was);
      FindOpenMeans(db, was, n, t);
      FindOpenMeans(r, now, n, t);
      var before, after := FindOpen(db, n, t), FindOpen(r, n, t);
      assert before.Some? ==> Matches(r, before.value, n, t);
      assert after.Some? ==> Matches(db, after.value, n, t);
    }
  }

  lemma PruneKeepsOpen(db: Db, was: int, cutoff: int, n: string, t: string)
    requires Inv(db, was)
    ensures OpenSince(Prune(db, cutoff), n, t) == OpenSince(db, n, t)
  {
    var r := Prune(db, cutoff);
    PruneKeepsInv(db, cutoff, was, was);
    FindOpenMeans(db, was, n, t);
    FindOpenMeans(r, was, n, t);
    var before, after := FindOpen(db, n, t), FindOpen(r, n, t);
    if before.Some? {
      assert Matches(db, before.value, n, t) && Matches(r, before.value, n, t);
    } else if after.Some? {
      assert Matches(r, after.value, n, t) && Matches(db, after.value, n, t);
    }
  }

  /** `r` is `db` with exactly the rows of `closed` moved from open to resolved at `t`. */
  ghost predicate ClosedExactly(db: Db, r: Db, closed: set<int>, t: int, why: Row -> string) {
    r.rows.Keys == db.rows.Keys && forall id :: id in db.rows ==> KeptBut(db, r, id, id in closed, t, why)
  }

  ghost predicate KeptBut(db: Db, r: Db, id: int, gone: bool, t: int, why: Row -> string)
    requires id in db.rows && id in r.rows
  {
    var a, b := db.rows[id], r.rows[id];
    if gone then !a.resolved && b == a.(resolved := true, resolvedAt := t, reason := why(a)) else b == a
  }

  lemma CloseExtends(db: Db, r: Db, closed: set<int>, t: int, id: int, why: Row -> string)
    requires ClosedExactly(db, r, closed, t, why) && OpenAt(db, id)
    ensures ClosedExactly(db, Close(r, t, id, why(db.rows[id]), true), closed + {id}, t, why)
  {
    var q := Close(r, t, id, why(db.rows[id]), true);
    forall k | k in db.rows
      ensures KeptBut(db, q, k, k in closed + {id}, t, why)
    {
      assert KeptBut(db, r, k, k in closed, t, why);
    }
  }

  lemma ClosedOpenSince(db: Db, r: Db, closed: set<int>, at: int, why: Row -> string, was: int, now: int, n: string, t: string)
    requires Inv(db, was) && Inv(r, now) && ClosedExactly(db, r, closed, at, why)
    ensures OpenSince(r, n, t) ==
              if FindOpen(db, n, t).Some? && FindOpen(db, n, t).value !in closed then OpenSince(db, n, t) else None
  {
    FindOpenMeans(db, was, n, t);
    FindOpenMeans(r, now, n, t);
    var before, after := FindOpen(db, n, t), FindOpen(r, n, t);
    if before.Some? && before.value !in closed {
      assert Matches(db, before.value, n, t) && KeptBut(db, r, before.value, false, at, why);
      assert Matches(r, before.value, n, t);
    } else if after.Some? {
      assert Matches(r, after.value, n, t) && KeptBut(db, r, after.value, after.value in closed, at, why);
      assert Matches(db, after.value, n, t);
    }
  }

  /** When a heartbeat's first `m` services first raise an incident of that title. */
  function Raised(services: seq<Service>, at: seq<int>, title: string, m: nat): Option<int>
    requires m <= |services| == |at|
  {
    if m == 0 then None
    else
      var earlier := Raised(services, at, title, m - 1);
      var s := services[m - 1];
      if earlier == None && !s.active && s.kind == "docker" && ContainerTitle(s.name) == title
      then Some(Clock.Unix(at[m - 1])) else earlier
  }

  /** The readings of one heartbeat's clock, in nanoseconds: at the memory check, at each
      service, when the stale sweep starts, and when it marks rows. */
  datatype Readings = Readings(memoryAt: int, serviceAt: seq<int>, sweepAt: int, markAt: int)

  ghost predicate InOrder(hb: Heartbeat, r: Readings, clock: int) {
    && Clock.SECOND <= r.memoryAt && clock <= Clock.Unix(r.memoryAt) && |r.serviceAt| == |hb.services|
    && (forall i :: 0 <= i < |r.serviceAt| ==> ReadInTurn(r, i))
    && r.memoryAt <= r.sweepAt <= r.markAt
  }

  ghost predicate ReadInTurn(r: Readings, i: nat)
    requires i < |r.serviceAt|
  {
    (if i == 0 then r.memoryAt else r.serviceAt[i - 1]) <= r.serviceAt[i] <= r.sweepAt && r.memoryAt <= r.serviceAt[i]
  }

  /** What is open after the creating half of a heartbeat. */
  function AfterRaising(hb: Heartbeat, r: Readings, title: string, before: Option<int>): Option<int>
    requires |r.serviceAt| == |hb.services|
  {
    if before.Some? then before
    else if title == MEMORY_TITLE && hb.memoryUsed > 92.0 then Some(Clock.Unix(r.memoryAt))
    else Raised(hb.services, r.serviceAt, title, |hb.services|)
  }

  /** What is open after the whole incident part of a heartbeat. */
  function AfterHeartbeat(hb: Heartbeat, r: Readings, title: string, before: Option<int>): Option<int>
    requires |r.serviceAt| == |hb.services|
  {
    var raised := AfterRaising(hb, r, title, before);
    if raised.Some? && ResolutionReason(title, hb, r.sweepAt, raised.value) == "" then raised else None
  }

  /** What a sweep against the heartbeat leaves open. */
  function Lasting(hb: Heartbeat, now: int, n: string, t: string, before: Option<int>): Option<int> {
    if n == hb.node && before.Some? && ResolutionReason(t, hb, now, before.value) != "" then None else before
  }

  /** An open row of the heartbeat's node whose condition the heartbeat clears. */
  predicate Cleared(hb: Heartbeat, now: int, row: Row) {
    !row.resolved && row.node == hb.node && ResolutionReason(row.title, hb, now, row.startedAt) != ""
  }

  function ClearedRows(hb: Heartbeat, now: int, rows: map<int, Row>): set<int> {
    set id | id in rows && Cleared(hb, now, rows[id])
  }

  function WhyCleared(hb: Heartbeat, now: int): Row -> string {
    (row: Row) => ResolutionReason(row.title, hb, now, row.startedAt)
  }

  /** All open rows of the node were looked at, and all to be cleared are among those closed. */
  lemma AllClosed(hb: Heartbeat, now: int, db: Db, seen: seq<int>, gone: set<int>)
    requires forall id :: OpenAt(db, id) && db.rows[id].node == hb.node ==> id in seen
    requires gone <= ClearedRows(hb, now, db.rows)
    requires forall j :: 0 <= j < |seen| && seen[j] in ClearedRows(hb, now, db.rows) ==> seen[j] in gone
    ensures gone == ClearedRows(hb, now, db.rows)
  {
    forall id | id in ClearedRows(hb, now, db.rows)
      ensures id in gone
    {
      assert OpenAt(db, id) && id in seen;
    }
  }

  lemma StaleGone(hb: Heartbeat, now: int, db: Db, r: Db, at: int, was: int, clock: int, n: string, t: string)
    requires Inv(db, was) && Inv(r, clock)
    requires ClosedExactly(db, r, ClearedRows(hb, now, db.rows), at, WhyCleared(hb, now))
    ensures OpenSince(r, n, t) == Lasting(hb, now, n, t, OpenSince(db, n, t))
  {
    ClosedOpenSince(db, r, ClearedRows(hb, now, db.rows), at, WhyCleared(hb, now), was, clock, n, t);
    var id := FindOpen(db, n, t);
    if id.Some? {
      assert Matches(db, id.value, n, t);
    }
  }

  lemma StaleCarries(hb: Heartbeat, now: int, before: map<int, Row>, db: Db, r: Db, t: int)
    requires Carries(hb, before, db.rows) && NoneResolved(before, db.rows)
    requires ClosedExactly(db, r, ClearedRows(hb, now, db.rows), t, WhyCleared(hb, now))
    ensures Carries(hb, before, r.rows) && ClosedFor(hb, now, t, before, r.rows)
  {
    CloseCarries(hb, before, db, r, ClearedRows(hb, now, db.rows), t, WhyCleared(hb, now));
    forall id | id in r.rows && r.rows[id].resolved && !(id in before && before[id].resolved)
      ensures r.rows[id].node == hb.node && ResolvedFor(hb, now, r.rows[id], r.rows[id].reason)
    {
      ReasonMeans(hb, now, db.rows[id]);
    }
  }

  /** What the fleet-wide sweep at `now` leaves open. */
  function Young(now: int, before: Option<int>): Option<int> {
    if before.Some? && 0 < before.value < Clock.Unix(now - ABANDONED_TTL) then None else before
  }

  /** An open row more than half an hour old, to the second. */
  predicate Abandoned(now: int, row: Row) {
    !row.resolved && 0 < row.startedAt && row.startedAt < Clock.Unix(now) - 1800
  }

  function AbandonedRows(now: int, rows: map<int, Row>): set<int> {
    set id | id in rows && Abandoned(now, rows[id])
  }

  function WhyAbandoned(): Row -> string {
    (row: Row) => "auto:abandoned_ttl"
  }

  lemma AbandonedGone(now: int, db: Db, r: Db, at: int, was: int, clock: int, n: string, t: string)
    requires Inv(db, was) && Inv(r, clock)
    requires ClosedExactly(db, r, AbandonedRows(now, db.rows), at, WhyAbandoned())
    ensures OpenSince(r, n, t) == Young(now, OpenSince(db, n, t))
  {
    ClosedOpenSince(db, r, AbandonedRows(now, db.rows), at, WhyAbandoned(), was, clock, n, t);
    var id := FindOpen(db, n, t);
    if id.Some? {
      assert Matches(db, id.value, n, t);
    }
  }

  // ----- What happens to the rows

  /** The same incident later: told again, notified again, or resolved; once resolved, final. */
  ghost predicate Kin(a: Row, b: Row) {
    b == a.(detail := b.detail, lastNotified := b.lastNotified, resolved := b.resolved, resolvedAt := b.resolvedAt, reason := b.reason) &&
    (a.resolved ==> b == a)
  }

  /** The incident one of the heartbeat's conditions raises, as warning or as critical. */
  ghost predicate RaisedBy(hb: Heartbeat, row: Row) {
    row.node == hb.node &&
    ((row.title == "High Memory Pressure" && row.severity == "warning" && hb.memoryUsed > 92.0) ||
     (row.severity == "critical" &&
      exists s :: s in hb.services && !s.active && s.kind == "docker" && row.title == "Container Stopped: " + s.name))
  }

  /** Every incident lives on, and a new one is the heartbeat's. */
  ghost predicate Carries(hb: Heartbeat, before: map<int, Row>, after: map<int, Row>) {
    && (forall id :: id in before ==> id in after && Kin(before[id], after[id]))
    && (forall id :: id in after && id !in before ==> RaisedBy(hb, after[id]))
  }

  /** Nothing has been resolved. */
  ghost predicate NoneResolved(before: map<int, Row>, after: map<int, Row>) {
    forall id :: id in after ==> (after[id].resolved <==> id in before && before[id].resolved)
  }

  lemma RaiseCarries(hb: Heartbeat, before: map<int, Row>, db: Db, r: Db, now: int, severity: string, title: string, detail: string)
    requires Carries(hb, before, db.rows) && NoneResolved(before, db.rows)
    requires Raises(db, r, now, hb.node, severity, title, detail)
    requires RaisedBy(hb, Row(hb.node, severity, title, detail, now, false, 0, "", now, 0, 0))
    ensures Carries(hb, before, r.rows) && NoneResolved(before, r.rows)
  {
  }

  lemma CloseCarries(hb: Heartbeat, before: map<int, Row>, db: Db, r: Db, closed: set<int>, t: int, why: Row -> string)
    requires Carries(hb, before, db.rows) && NoneResolved(before, db.rows) && ClosedExactly(db, r, closed, t, why)
    ensures Carries(hb, before, r.rows)
    ensures forall id :: id in r.rows && r.rows[id].resolved && !(id in before && before[id].resolved) ==>
              id in closed && id in db.rows && r.rows[id] == db.rows[id].(resolved := true, resolvedAt := t, reason := why(db.rows[id]))
  {
    forall id | id in db.rows
      ensures KeptBut(db, r, id, id in closed, t, why)
    {
    }
  }

  /** Why a heartbeat resolves an incident of its node, told on the heartbeat. */
  ghost predicate ResolvedFor(hb: Heartbeat, now: int, row: Row, reason: string) {
    match reason
    case "auto:metric_recovered" => row.title == "High Memory Pressure" && hb.memoryUsed <= 90.0
    case "auto:service_absent" =>
      exists name :: row.title == "Container Stopped: " + name && forall s :: s in hb.services ==> s.name != name
    case "auto:service_recovered" =>
      exists i :: 0 <= i < |hb.services| && row.title == "Container Stopped: " + hb.services[i].name && hb.services[i].active &&
        forall j :: 0 <= j < i ==> hb.services[j].name != hb.services[i].name
    case "auto:abandoned_ttl" =>
      TooOld(now, row.startedAt) &&
      exists i :: 0 <= i < |hb.services| && row.title == "Container Stopped: " + hb.services[i].name && !hb.services[i].active &&
        forall j :: 0 <= j < i ==> hb.services[j].name != hb.services[i].name
    case _ => false
  }

  lemma ReasonMeans(hb: Heartbeat, now: int, row: Row)
    requires ResolutionReason(row.title, hb, now, row.startedAt) != ""
    ensures ResolvedFor(hb, now, row, ResolutionReason(row.title, hb, now, row.startedAt))
  {
    if row.title != MEMORY_TITLE {
      var name := row.title[|CONTAINER_PREFIX|..];
      assert row.title == "Container Stopped: " + name;
      FirstNamedMeans(hb.services, name, 0);
    }
  }

  /** The rows the heartbeat closed, at `t`, and why. */
  ghost predicate ClosedFor(hb: Heartbeat, now: int, t: int, before: map<int, Row>, after: map<int, Row>) {
    forall id :: id in after && after[id].resolved && !(id in before && before[id].resolved) ==>
      after[id].node == hb.node && after[id].resolvedAt == t && ResolvedFor(hb, now, after[id], after[id].reason)
  }

  // ----- What a heartbeat means for memory and containers

  lemma {:induction false} MemoryIsNoContainer(services: seq<Service>, at: seq<int>, m: nat)
    requires m <= |services| == |at|
    ensures Raised(services, at, MEMORY_TITLE, m) == None
  {
    if m > 0 {
      MemoryIsNoContainer(services, at, m - 1);
      assert ContainerTitle(services[m - 1].name)[0] != MEMORY_TITLE[0];
    }
  }

  /** Above 92 the memory incident is open, at 90 or below it is closed, between the two
      it stays as it was. */
  lemma MemoryHysteresis(hb: Heartbeat, r: Readings, before: Option<int>)
    requires |r.serviceAt| == |hb.services|
    ensures AfterHeartbeat(hb, r, MEMORY_TITLE, before).Some? <==> hb.memoryUsed > 92.0 || (hb.memoryUsed > 90.0 && before.Some?)
    ensures hb.memoryUsed > 90.0 && before.Some? ==> AfterHeartbeat(hb, r, MEMORY_TITLE, before) == before
  {
    MemoryIsNoContainer(hb.services, r.serviceAt, |hb.services|);
  }

  predicate StoppedDocker(s: Service, name: string) {
    s.name == name && !s.active && s.kind == "docker"
  }

  lemma {:induction false} RaisedIff(services: seq<Service>, at: seq<int>, name: string, m: nat)
    requires m <= |services| == |at|
    ensures Raised(services, at, ContainerTitle(name), m).Some? <==> exists i :: 0 <= i < m && StoppedDocker(services[i], name)
    ensures Raised(services, at, ContainerTitle(name), m).Some? ==>
              exists i :: 0 <= i < m && Raised(services, at, ContainerTitle(name), m).value == Clock.Unix(at[i])
  {
    if m > 0 {
      RaisedIff(services, at, name, m - 1);
      TitleDetermines(services[m - 1].name, name);
    }
  }

  lemma TitleDetermines(a: string, b: string)
    ensures ContainerTitle(a) == ContainerTitle(b) <==> a == b
    ensures ContainerTitle(a)[|CONTAINER_PREFIX|..] == a && ContainerTitle(a)[..|CONTAINER_PREFIX|] == CONTAINER_PREFIX
    ensures ContainerTitle(a) != MEMORY_TITLE
  {
    assert ContainerTitle(a)[|CONTAINER_PREFIX|..] == a && ContainerTitle(b)[|CONTAINER_PREFIX|..] == b;
    assert ContainerTitle(a)[0] == 'C' && MEMORY_TITLE[0] == 'H';
  }

  /** Half an hour has passed. */
  predicate TooOld(now: int, startedAt: int) {
    startedAt > 0 && now - startedAt * 1_000_000_000 > 1_800_000_000_000
  }

  /** After a heartbeat the incident of a (non-empty) container name is open exactly when
      the first service of that name is reported stopped, the incident was open before or
      a stopped docker service raised it now, and its row is not too old. */
  lemma ContainerOpenIff(hb: Heartbeat, r: Readings, name: string, before: Option<int>)
    requires |r.serviceAt| == |hb.services| && name != ""
    ensures var s := FirstNamed(hb.services, name, 0);
            var raised := AfterRaising(hb, r, ContainerTitle(name), before);
            AfterHeartbeat(hb, r, ContainerTitle(name), before).Some? <==>
              s.Some? && !s.value.active && raised.Some? && !TooOld(r.sweepAt, raised.value)
    ensures AfterRaising(hb, r, ContainerTitle(name), before).Some? <==>
              before.Some? || exists i :: 0 <= i < |hb.services| && StoppedDocker(hb.services[i], name)
  {
    TitleDetermines(name, name);
    RaisedIff(hb.services, r.serviceAt, name, |hb.services|);
  }

  /** With distinct service names, "open exactly for the reported stopped docker services
      whose row is young" holds for a name unless the name was open before and is now
      reported stopped, with a young row, under another service type. */
  lemma StoppedDockersOnlyIff(hb: Heartbeat, r: Readings, name: string, before: Option<int>)
    requires |r.serviceAt| == |hb.services| && name != ""
    requires forall i, j :: 0 <= i < j < |hb.services| ==> hb.services[i].name != hb.services[j].name
    ensures var s := FirstNamed(hb.services, name, 0);
            var raised := AfterRaising(hb, r, ContainerTitle(name), before);
            var young := raised.Some? && !TooOld(r.sweepAt, raised.value);
            (AfterHeartbeat(hb, r, ContainerTitle(name), before).Some? <==> s.Some? && StoppedDocker(s.value, name) && young)
            <==> !(before.Some? && !TooOld(r.sweepAt, before.value) && s.Some? && !s.value.active && s.value.kind != "docker")
  {
    ContainerOpenIff(hb, r, name, before);
    FirstNamedMeans(hb.services, name, 0);
  }

  lemma OpenedByDocker(node: string, name: string, r: Readings)
    requires name != "" && r == Readings(Clock.SECOND, [Clock.SECOND], Clock.SECOND, Clock.SECOND)
    ensures AfterHeartbeat(Heartbeat(node, 0.0, [Service(name, "docker", false, "")]), r, ContainerTitle(name), None) == Some(1)
  {
    var hb := Heartbeat(node, 0.0, [Service(name, "docker", false, "")]);
    TitleDetermines(name, name);
    assert Raised(hb.services, r.serviceAt, ContainerTitle(name), 1) == Some(1);
    assert FirstNamed(hb.services, name, 0) == Some(hb.services[0]);
  }

  /** A failing input: an open young incident, and its service stopped under another type. */
  lemma StaysOpenForOtherKind(hb: Heartbeat, r: Readings, name: string, before: Option<int>)
    requires name != "" && |hb.services| == |r.serviceAt| == 1 && before.Some? && !TooOld(r.sweepAt, before.value)
    requires hb.services[0].name == name && !hb.services[0].active && hb.services[0].kind != "docker"
    ensures AfterHeartbeat(hb, r, ContainerTitle(name), before) == before
  {
    TitleDetermines(name, name);
    assert FirstNamed(hb.services, name, 0) == Some(hb.services[0]);
    assert Raised(hb.services, r.serviceAt, ContainerTitle(name), 0) == None;
  }

  /** It stands somewhere, before all others of that name. */
  lemma {:induction false} FirstNamedMeans(services: seq<Service>, name: string, from: nat)
    requires from <= |services|
    ensures var s := FirstNamed(services, name, from);
            if s == None then forall i :: from <= i < |services| ==> services[i].name != name
            else exists i :: from <= i < |services| && services[i] == s.value && s.value.name == name &&
                   forall j :: from <= j < i ==> services[j].name != name
    decreases |services| - from
  {
    if from < |services| && services[from].name != name {
      FirstNamedMeans(services, name, from + 1);
    }
  }

  /** A heartbeat neither opens nor closes any other title. */
  lemma OtherTitlesUntouched(hb: Heartbeat, r: Readings, title: string, before: Option<int>)
    requires |r.serviceAt| == |hb.services| && title != MEMORY_TITLE
    requires !(CONTAINER_PREFIX <= title)
    ensures AfterHeartbeat(hb, r, title, before) == before
  {
    NotRaised(hb.services, r.serviceAt, title, |hb.services|);
  }

  lemma {:induction false} NotRaised(services: seq<Service>, at: seq<int>, title: string, m: nat)
    requires m <= |services| == |at| && !(CONTAINER_PREFIX <= title)
    ensures Raised(services, at, title, m) == None
  {
    if m > 0 {
      NotRaised(services, at, title, m - 1);
      TitleDetermines(services[m - 1].name, services[m - 1].name);
    }
  }

  /** Resolved before the cutoff, at a known time. */
  predicate Expired(row: Row, cutoff: int) {
    row.resolved && 0 < row.resolvedAt && row.resolvedAt < cutoff
  }

  /** Exactly the expired rows are gone, and the others are as they were. */
  ghost predicate Retained(before: map<int, Row>, after: map<int, Row>, cutoff: int) {
    forall id :: (id in after <==> id in before && !Expired(before[id], cutoff)) && (id in after ==> after[id] == before[id])
  }

  datatype WatchdogResult = WatchdogResult(nodesChecked: nat, raised: seq<string>, closed: seq<string>)

  datatype Change = Unchanged | DidRaise | DidClose

  predicate IsSilent(lastHeartbeat: int, now: int) {
    lastHeartbeat < now - SILENT_TTL
  }

  /** What a watchdog pass leaves open. */
  function Watched(nodes: map<string, int>, now: int, at: int, n: string, t: string, before: Option<int>): Option<int> {
    if t != SILENT_TITLE || n !in nodes then before
    else if !IsSilent(nodes[n], now) then None
    else if before == None then Some(at)
    else before
  }

  /** The row of a node found silent at `at`. */
  function SilentRow(node: string, detail: string, at: int): Row {
    Row(node, "critical", "Node Silent", detail, at, false, 0, "", at, 0, 0)
  }

  function Heard(row: Row, at: int): Row {
    row.(resolved := true, resolvedAt := at, reason := "auto:heartbeat_restored")
  }

  /** What a watchdog pass does to the rows: it closes "Node Silent" incidents of nodes heard from,
      inserts them for silent ones, and leaves all else alone; none of it for the nodes in `left`. */
  ghost predicate WatchedRows(before: map<int, Row>, after: map<int, Row>, left: set<string>, at: int, detail: string) {
    && (forall id :: id in before ==> id in after && WatchedRow(before[id], after[id], left, at))
    && (forall id :: id in after && id !in before ==> after[id].node !in left && after[id] == SilentRow(after[id].node, detail, at))
  }

  ghost predicate WatchedRow(a: Row, b: Row, left: set<string>, at: int) {
    b == a || (!a.resolved && a.title == "Node Silent" && a.node !in left && b == Heard(a, at))
  }

  /** The one change of a check, told on the rows. */
  ghost predicate Checked(db: Db, r: Db, node: string, change: Change, at: int, detail: string) {
    match change
    case Unchanged => r == db
    case DidRaise =>
      db.nextId !in db.rows && r.nextId == db.nextId + 1 && r.rows == db.rows[db.nextId := SilentRow(node, detail, at)]
    case DidClose =>
      exists id :: Matches(db, id, node, "Node Silent") && r.nextId == db.nextId && r.rows == db.rows[id := Heard(db.rows[id], at)]
  }

  lemma CheckWatches(before: map<int, Row>, db: Db, r: Db, left: set<string>, node: string, change: Change, at: int, detail: string)
    requires node in left && WatchedRows(before, db.rows, left, at, detail) && Checked(db, r, node, change, at, detail)
    ensures WatchedRows(before, r.rows, left - {node}, at, detail)
  {
  }

  /** The change of one check, told on what is open. */
  ghost predicate Changes(db: Db, r: Db, node: string, change: Change, at: int) {
    forall n, t :: OpenSince(r, n, t) ==
      if n == node && t == SILENT_TITLE && change == DidRaise then Some(at)
      else if n == node && t == SILENT_TITLE && change == DidClose then None
      else OpenSince(db, n, t)
  }

  /** What is open when the nodes in `left` are still to be checked. */
  ghost predicate Halfway(db: Db, r: Db, nodes: map<string, int>, left: set<string>, now: int, at: int) {
    forall n, t :: OpenSince(r, n, t) == if n in left then OpenSince(db, n, t) else Watched(nodes, now, at, n, t, OpenSince(db, n, t))
  }

  lemma HalfwayNext(db: Db, mid: Db, r: Db, nodes: map<string, int>, left: set<string>, now: int, at: int, node: string, change: Change)
    requires Halfway(db, mid, nodes, left, now, at) && node in left && node in nodes && Changes(mid, r, node, change, at)
    requires change == Due(nodes[node], now, OpenSince(db, node, SILENT_TITLE))
    ensures Halfway(db, r, nodes, left - {node}, now, at)
  {
  }

  /** What a check must do. */
  function Due(lastHeartbeat: int, now: int, before: Option<int>): Change {
    if IsSilent(lastHeartbeat, now) then (if before == None then DidRaise else Unchanged)
    else if before.Some? then DidClose else Unchanged
  }

  function WithChange(res: WatchdogResult, node: string, change: Change): WatchdogResult {
    WatchdogResult(
      res.nodesChecked + 1,
      if change == DidRaise then res.raised + [node] else res.raised,
      if change == DidClose then res.closed + [node] else res.closed)
  }

  /** Of the nodes checked so far, those raised were silent without an open incident, those
      closed were heard from with one. */
  ghost predicate Reports(res: WatchdogResult, nodes: map<string, int>, left: set<string>, now: int, db: Db) {
    && (forall n :: n in res.raised <==>
         n in nodes && n !in left && IsSilent(nodes[n], now) && OpenSince(db, n, SILENT_TITLE) == None)
    && (forall n :: n in res.closed <==>
         n in nodes && n !in left && !IsSilent(nodes[n], now) && OpenSince(db, n, SILENT_TITLE).Some?)
  }

  lemma ReportsNext(res: WatchdogResult, nodes: map<string, int>, left: set<string>, now: int, db: Db, node: string, change: Change)
    requires Reports(res, nodes, left, now, db) && node in left && node in nodes
    requires change == Due(nodes[node], now, OpenSince(db, node, SILENT_TITLE))
    ensures Reports(WithChange(res, node, change), nodes, left - {node}, now, db)
  {
  }

  /** Clock readings of one janitor pass, and its retention cutoff in unix seconds. */
  datatype PassReadings = PassReadings(sweepNow: int, watchNow: int, watchAt: int, pruneCutoff: int)

  ghost predicate PassInOrder(r: PassReadings, clock: int) {
    Clock.SECOND <= r.sweepNow <= r.watchNow <= r.watchAt && clock <= Clock.Unix(r.sweepNow)
  }

  /** Which pairs are open after a pass, given which were before. */
  ghost predicate Settles(db: Db, after: Db, nodes: map<string, int>, r: PassReadings) {
    forall n, t :: OpenSince(after, n, t) ==
      Watched(nodes, r.watchNow, Clock.Unix(r.watchAt), n, t, Young(r.sweepNow, OpenSince(db, n, t)))
  }

  /** No open row is old enough to sweep. */
  ghost predicate NoneOld(db: Db, now: int) {
    forall id :: OpenAt(db, id) ==> !(0 < db.rows[id].startedAt < Clock.Unix(now - ABANDONED_TTL))
  }

  lemma NothingAbandoned(db: Db, now: int)
    requires NoneOld(db, now)
    ensures AbandonedRows(now, db.rows) == {}
  {
    if AbandonedRows(now, db.rows) != {} {
      var id := Sets.Inhabited(AbandonedRows(now, db.rows));
      assert OpenAt(db, id);
    }
  }

  lemma SettledIsYoung(db: Db, after: Db, nodes: map<string, int>, r: PassReadings, clock: int)
    requires Inv(after, clock) && Settles(db, after, nodes, r) && PassInOrder(r, 0)
    ensures NoneOld(after, r.sweepNow)
  {
    forall id | OpenAt(after, id)
      ensures !(0 < after.rows[id].startedAt < Clock.Unix(r.sweepNow - ABANDONED_TTL))
    {
      OpenSinceMeans(after, clock, id, after.rows[id].node, after.rows[id].title);
    }
  }

  lemma PruneSettles(db: Db, after: Db, nodes: map<string, int>, r: PassReadings, clock: int)
    requires Inv(after, clock) && Settles(db, after, nodes, r) && NoneOld(after, r.sweepNow)
    ensures var p := Prune(after, r.pruneCutoff);
            Settles(db, p, nodes, r) && NoneOld(p, r.sweepNow) && Prune(p, r.pruneCutoff) == p
  {
    var p := Prune(after, r.pruneCutoff);
    forall n, t
      ensures OpenSince(p, n, t) == OpenSince(after, n, t)
    {
      PruneKeepsOpen(after, clock, r.pruneCutoff, n, t);
    }
    assert forall id :: OpenAt(p, id) ==> OpenAt(after, id) && p.rows[id] == after.rows[id];
    assert Prune(p, r.pruneCutoff).rows == p.rows;
  }

  /** What a pass, with retention, does to the rows. A row resolved before stays as it is unless
      it is expired. An open one stays as it is unless it is abandoned or its node was heard from;
      then it is resolved, and gone only if the cutoff is past that very moment. New ones are
      those of silent nodes. No expired row is left. */
  ghost predicate PassedRows(before: map<int, Row>, after: map<int, Row>, r: PassReadings, detail: string) {
    && (forall id :: id in before ==> PassedRow(before[id], if id in after then Some(after[id]) else None, r))
    && (forall id :: id in after ==> !Expired(after[id], r.pruneCutoff))
    && (forall id :: id in after && id !in before ==> after[id] == SilentRow(after[id].node, detail, Clock.Unix(r.watchAt)))
  }

  ghost predicate PassedRow(a: Row, b: Option<Row>, r: PassReadings) {
    if a.resolved then b == if Expired(a, r.pruneCutoff) then None else Some(a)
    else if Abandoned(r.sweepNow, a) then
      b == Kept(a.(resolved := true, resolvedAt := Clock.Unix(r.sweepNow), reason := "auto:abandoned_ttl"), r.pruneCutoff)
    else b == Some(a) || (a.title == "Node Silent" && b == Kept(Heard(a, Clock.Unix(r.watchAt)), r.pruneCutoff))
  }

  function Kept(row: Row, cutoff: int): Option<Row> {
    if row.resolvedAt < cutoff then None else Some(row)
  }

  lemma PassMeans(db: Db, swept: Db, watched: Db, after: map<int, Row>, r: PassReadings, detail: string)
    requires PassInOrder(r, 0)
    requires ClosedExactly(db, swept, AbandonedRows(r.sweepNow, db.rows), Clock.Unix(r.sweepNow), WhyAbandoned())
    requires WatchedRows(swept.rows, watched.rows, {}, Clock.Unix(r.watchAt), detail)
    requires Retained(watched.rows, after, r.pruneCutoff)
    ensures PassedRows(db.rows, after, r, detail)
  {
    forall id | id in db.rows
      ensures PassedRow(db.rows[id], if id in after then Some(after[id]) else None, r)
    {
      assert KeptBut(db, swept, id, id in AbandonedRows(r.sweepNow, db.rows), Clock.Unix(r.sweepNow), WhyAbandoned());
      assert WatchedRow(swept.rows[id], watched.rows[id], {}, Clock.Unix(r.watchAt));
    }
  }

  /** No open row is old enough to sweep, and exactly the silent nodes are reported silent. */
  ghost predicate Quiet(nodes: map<string, int>, r: PassReadings, db: Db) {
    && NoneOld(db, r.sweepNow)
    && (forall n :: n in nodes ==> (OpenSince(db, n, SILENT_TITLE).Some? <==> IsSilent(nodes[n], r.watchNow)))
  }

  class IncidentStore {
    var rows: map<int, Row>
    var nextId: int
    ghost var log: seq<Event>
    ghost var clock: int

    ghost function State(): Db
      reads this
    {
      Db(rows, nextId, log)
    }

    ghost predicate Valid()
      reads this
    {
      Inv(State(), clock)
    }

    constructor ()
      ensures Valid() && State() == EMPTY && clock == 0
    {
      rows, nextId, log, clock := map[], 1, [], 0;
    }

    /** SELECT ... WHERE node_id AND title AND resolved = 0 ORDER BY id DESC LIMIT 1 */
    method Lookup(node: string, title: string) returns (id: Option<int>)
      ensures id == FindOpen(State(), node, title)
    {
      var n := nextId;
      while n > 0
        invariant FindOpen(State(), node, title) == OpenBelow(State(), node, title, n)
      {
        n := n - 1;
        if n in rows && !rows[n].resolved && rows[n].node == node && rows[n].title == title {
          return Some(n);
        }
      }
      id := None;
    }

    method CreateIncident(node: string, severity: string, title: string, detail: string, now: int)
      requires Valid() && clock <= now && 0 < now
      modifies this
      ensures State() == Create(old(State()), now, node, severity, title, detail)
      ensures Raises(old(State()), State(), now, node, severity, title, detail)
      ensures Valid() && clock == now
    {
      CreateRaises(State(), clock, now, node, severity, title, detail);
      CreateKeepsInv(State(), clock, now, node, severity, title, detail);
      clock := now;
      var open := Lookup(node, title);
      if open == None {
        rows := rows[nextId := Row(node, severity, title, detail, now, false, 0, "", now, 0, 0)];
        log := log + [Fired(nextId, now, severity)];
        nextId := nextId + 1;
        return;
      }
      var id := open.value;
      var lastNotified, snoozedUntil := rows[id].lastNotified, rows[id].snoozedUntil;
      rows := rows[id := rows[id].(detail := detail)];
      if snoozedUntil > now {
        return;
      }
      if lastNotified == 0 || now - lastNotified >= CooldownFor(severity) {
        rows := rows[id := rows[id].(lastNotified := now)];
        log := log + [Fired(id, now, severity)];
      }
    }

    /** Returns whether this call moved the row from open to resolved. */
    method MarkResolvedAndNotify(id: int, reason: string, now: int) returns (moved: bool)
      requires Valid() && clock <= now
      modifies this
      ensures State() == Close(old(State()), now, id, reason, true)
      ensures moved <==> id in old(rows) && !old(rows)[id].resolved
      ensures moved ==> rows == old(rows)[id := old(rows)[id].(resolved := true, resolvedAt := now, reason := reason)]
      ensures moved ==> log == old(log) + [Closed(id, now, true)]
      ensures !moved ==> State() == old(State())
      ensures Valid() && clock == now
    {
      CloseKeepsInv(State(), clock, now, id, reason, true);
      clock := now;
      moved := id in rows && !rows[id].resolved;
      if moved {
        rows := rows[id := rows[id].(resolved := true, resolvedAt := now, reason := reason)];
        log := log + [Closed(id, now, true)];
      }
    }

    /** `permitted` is the ownership test; the answer tells a missing row from a forbidden one. */
    method ResolveIncident(id: int, permitted: bool, now: int) returns (error: Option<string>)
      requires Valid() && clock <= now && 0 < now
      modifies this
      ensures State() == ManualResolve(old(State()), now, id, permitted)
      ensures error == if id !in old(rows) then Some("not found") else if !permitted then Some("forbidden") else None
      ensures error != None ==> State() == old(State())
      ensures error == None ==>
                rows == old(rows)[id := old(rows)[id].(resolved := true, resolvedAt := now, reason := "manual")] && nextId == old(nextId) &&
                log == old(log) + if old(rows)[id].resolved then [] else [Closed(id, now, false)]
      ensures forall n, t :: OpenSince(State(), n, t) ==
                if error == None && old(Matches(State(), id, n, t)) then None else OpenSince(old(State()), n, t)
      ensures Valid() && clock == now
    {
      forall n, t
        ensures OpenSince(ManualResolve(State(), now, id, permitted), n, t) ==
                if id in rows && permitted && Matches(State(), id, n, t) then None else OpenSince(State(), n, t)
      {
        ManualCloses(State(), clock, now, id, permitted, n, t);
      }
      StepKeepsInv(State(), OpManualResolve(now, id, permitted), clock);
      clock := now;
      if id in rows && permitted {
        ghost var moved := !rows[id].resolved;
        rows := rows[id := rows[id].(resolved := true, resolvedAt := now, reason := "manual")];
        log := if moved then log + [Closed(id, now, false)] else log;
        return None;
      }
      return if id in rows then Some("forbidden") else Some("not found");
    }

    method SnoozeIncident(id: int, seconds: int, first: int, second: int) returns (until: int, error: Option<string>)
      requires Valid() && clock <= first <= second && 0 < first
      modifies this
      ensures State() == Snooze(old(State()), first, second, id, seconds)
      ensures error == if seconds <= 0 || 24 * 3600 < seconds then Some("invalid duration")
                       else if !old(OpenAt(State(), id)) then Some("not found") else None
      ensures error != None ==> State() == old(State())
      ensures error == None ==>
                until == first + seconds && nextId == old(nextId) && log == old(log) + [Snoozed(id, second, until)] &&
                rows == old(rows)[id := old(rows)[id].(snoozedUntil := until, lastNotified := second)]
      ensures Valid() && clock == second
    {
      StepKeepsInv(State(), OpSnooze(first, second, id, seconds), clock);
      clock := second;
      if seconds <= 0 || seconds > 24 * 3600 {
        return 0, Some("invalid duration");
      }
      if id !in rows {
        return 0, Some("not found");
      }
      if rows[id].resolved {
        return 0, Some("not found");
      }
      until := first + seconds;
      rows := rows[id := rows[id].(snoozedUntil := until, lastNotified := second)];
      log := log + [Snoozed(id, second, until)];
      error := None;
    }

    method AcknowledgeIncident(id: int, now: int) returns (acked: bool)
      requires Valid() && clock <= now && 0 < now
      modifies this
      ensures State() == Acknowledge(old(State()), now, id)
      ensures acked <==> id in old(rows) && !old(rows)[id].resolved && old(rows)[id].acknowledgedAt == 0
      ensures rows == if acked then old(rows)[id := old(rows)[id].(acknowledgedAt := now)] else old(rows)
      ensures log == old(log) && nextId == old(nextId)
      ensures Valid() && clock == now
    {
      StepKeepsInv(State(), OpAcknowledge(now, id), clock);
      clock := now;
      if id !in rows || rows[id].resolved || rows[id].acknowledgedAt != 0 {
        return false;
      }
      rows := rows[id := rows[id].(acknowledgedAt := now)];
      acked := true;
    }

    method PruneResolved(cutoff: int) returns (pruned: nat)
      requires Valid()
      modifies this`rows
      ensures State() == Prune(old(State()), cutoff)
      ensures Retained(old(rows), rows, cutoff) && log == old(log)
      ensures pruned == |set id | id in old(rows) && Expired(old(rows)[id], cutoff)|
      ensures Valid()
    {
      PruneKeepsInv(State(), cutoff, clock, clock);
      var kept := map id | id in rows && !(rows[id].resolved && 0 < rows[id].resolvedAt < cutoff) :: rows[id];
      ghost var expired := set id | id in rows && Expired(rows[id], cutoff);
      CardinalityOfParts(rows.Keys, kept.Keys, expired);
      pruned := |rows| - |kept|;
      rows := kept;
    }

    /** The ids of the open rows selected by `p`, oldest first. */
    method Select(p: Row -> bool) returns (ids: seq<int>)
      requires Valid()
      ensures forall id :: id in ids <==> OpenAt(State(), id) && p(rows[id])
      ensures forall i, j :: 0 <= i < j < |ids| ==> ids[i] < ids[j]
    {
      ids := [];
      for id := 0 to nextId
        invariant forall k :: k in ids <==> k < id && OpenAt(State(), k) && p(rows[k])
        invariant forall i :: 0 <= i < |ids| ==> ids[i] < id
        invariant forall i, j :: 0 <= i < j < |ids| ==> ids[i] < ids[j]
      {
        if id in rows && !rows[id].resolved && p(rows[id]) {
          ids := ids + [id];
        }
      }
      forall id | OpenAt(State(), id) && p(rows[id])
        ensures id in ids
      {
        assert RowWell(State(), id, clock);
      }
    }

    /** Close one more of the rows that were open when a sweep began. */
    method CloseAnother(id: int, reason: string, at: int, ghost was: Db, ghost gone: set<int>, ghost why: Row -> string)
      requires Valid() && clock == at && ClosedExactly(was, State(), gone, at, why)
      requires OpenAt(was, id) && reason == why(was.rows[id])
      modifies this
      ensures Valid() && clock == at && nextId == old(nextId) && ClosedExactly(was, State(), gone + {id}, at, why)
    {
      CloseExtends(was, State(), gone, at, id, why);
      var _ := MarkResolvedAndNotify(id, reason, at);
    }

    /** Close every open row of the heartbeat's node whose condition the heartbeat clears. */
    method ResolveStaleIncidents(hb: Heartbeat, now: int, markAt: int)
      requires Valid() && clock <= Clock.Unix(markAt)
      modifies this
      ensures Valid() && clock == Clock.Unix(markAt) && nextId == old(nextId)
      ensures ClosedExactly(old(State()), State(), ClearedRows(hb, now, old(rows)),
                Clock.Unix(markAt), WhyCleared(hb, now))
      ensures forall n, t :: OpenSince(State(), n, t) == Lasting(hb, now, n, t, OpenSince(old(State()), n, t))
    {
      var open := Select((r: Row) => r.node == hb.node);
      var seen := rows;
      ghost var was, start := State(), clock;
      ghost var gone: set<int> := {};
      ghost var why := WhyCleared(hb, now);
      clock := Clock.Unix(markAt);
      LaterKeepsInv(was, start, clock);
      assert forall id :: id in was.rows ==> KeptBut(was, State(), id, false, clock, why);
      for i := 0 to |open|
        invariant Valid() && clock == Clock.Unix(markAt) && nextId == was.nextId && ClosedExactly(was, State(), gone, clock, why)
        invariant gone <= ClearedRows(hb, now, was.rows)
        invariant forall j :: 0 <= j < i && open[j] in ClearedRows(hb, now, was.rows) ==> open[j] in gone
      {
        var id := open[i];
        assert id in open && OpenAt(was, id);
        var reason := ResolutionReason(seen[id].title, hb, now, seen[id].startedAt);
        if reason != "" {
          CloseAnother(id, reason, Clock.Unix(markAt), was, gone, why);
          gone := gone + {id};
        }
      }
      AllClosed(hb, now, was, open, gone);
      forall n, t
        ensures OpenSince(State(), n, t) == Lasting(hb, now, n, t, OpenSince(was, n, t))
      {
        StaleGone(hb, now, was, State(), clock, start, clock, n, t);
      }
    }

    /** The fleet-wide sweep takes every old open row, whatever its title. */
    method ResolveAbandonedAcrossFleet(now: int, markAt: int) returns (n: nat)
      requires Valid() && clock <= Clock.Unix(markAt)
      modifies this
      ensures Valid() && clock == Clock.Unix(markAt) && nextId == old(nextId)
      ensures n == |AbandonedRows(now, old(rows))|
      ensures ClosedExactly(old(State()), State(), AbandonedRows(now, old(rows)),
                Clock.Unix(markAt), WhyAbandoned())
      ensures forall n, t :: OpenSince(State(), n, t) == Young(now, OpenSince(old(State()), n, t))
      ensures n == 0 ==> State() == old(State())
    {
      var cutoff := Clock.Unix(now - ABANDONED_TTL);
      var stale := Select((r: Row) => 0 < r.startedAt < cutoff);
      ghost var was, start := State(), clock;
      ghost var gone: set<int> := {};
      ghost var why := WhyAbandoned();
      clock := Clock.Unix(markAt);
      LaterKeepsInv(was, start, clock);
      assert forall id :: id in was.rows ==> KeptBut(was, State(), id, false, clock, why);
      for i := 0 to |stale|
        invariant Valid() && clock == Clock.Unix(markAt) && nextId == was.nextId && ClosedExactly(was, State(), gone, clock, why)
        invariant forall id :: id in gone ==> id in stale
        invariant forall j :: 0 <= j < i ==> stale[j] in gone
        invariant i == 0 ==> State() == was
      {
        var id := stale[i];
        assert id in stale && OpenAt(was, id);
        CloseAnother(id, "auto:abandoned_ttl", Clock.Unix(markAt), was, gone, why);
        gone := gone + {id};
      }
      n := |stale|;
      forall id
        ensures id in gone <==> id in AbandonedRows(now, was.rows)
        ensures id in stale <==> id in AbandonedRows(now, was.rows)
      {
        assert id in was.rows ==> (Abandoned(now, was.rows[id]) <==> OpenAt(was, id) && 0 < was.rows[id].startedAt < cutoff);
      }
      assert gone == AbandonedRows(now, was.rows);
      CountDistinct(stale, AbandonedRows(now, was.rows));
      forall n, t
        ensures OpenSince(State(), n, t) == Young(now, OpenSince(was, n, t))
      {
        AbandonedGone(now, was, State(), clock, start, clock, n, t);
      }
    }

    /** The incident part of one heartbeat. */
    method IngestIncidents(hb: Heartbeat, r: Readings, memoryDetail: string)
      requires Valid() && InOrder(hb, r, clock)
      modifies this
      ensures Valid() && clock == Clock.Unix(r.markAt)
      ensures Carries(hb, old(rows), rows) && ClosedFor(hb, r.sweepAt, Clock.Unix(r.markAt), old(rows), rows)
      ensures forall n, t :: OpenSince(State(), n, t) ==
                if n == hb.node then AfterHeartbeat(hb, r, t, OpenSince(old(State()), n, t)) else OpenSince(old(State()), n, t)
    {
      RaiseIncidents(hb, r, memoryDetail);
      ghost var mid := State();
      ResolveStaleIncidents(hb, r.sweepAt, r.markAt);
      StaleCarries(hb, r.sweepAt, old(rows), mid, State(), Clock.Unix(r.markAt));
    }

    method RaiseIncidents(hb: Heartbeat, r: Readings, memoryDetail: string)
      requires Valid() && InOrder(hb, r, clock)
      modifies this
      ensures Valid() && clock <= Clock.Unix(r.sweepAt)
      ensures Carries(hb, old(rows), rows) && NoneResolved(old(rows), rows)
      ensures forall n, t :: OpenSince(State(), n, t) ==
                if n == hb.node then AfterRaising(hb, r, t, OpenSince(old(State()), n, t)) else OpenSince(old(State()), n, t)
    {
      ghost var was := State();
      RaiseMemory(hb, Clock.Unix(r.memoryAt), memoryDetail);
      ghost var mid := State();
      for i := 0 to |hb.services|
        invariant Valid() && clock <= Clock.Unix(if i == 0 then r.memoryAt else r.serviceAt[i - 1]) <= Clock.Unix(r.sweepAt)
        invariant Carries(hb, was.rows, rows) && NoneResolved(was.rows, rows)
        invariant forall n, t :: OpenSince(State(), n, t) ==
                    if n == hb.node && OpenSince(mid, n, t) == None then Raised(hb.services, r.serviceAt, t, i) else OpenSince(mid, n, t)
      {
        var s := hb.services[i];
        assert ReadInTurn(r, i);
        if !s.active && s.kind == "docker" {
          RaiseContainer(hb, s, Clock.Unix(r.serviceAt[i]), was.rows);
        }
      }
      forall t | t == MEMORY_TITLE
        ensures Raised(hb.services, r.serviceAt, t, |hb.services|) == None
      {
        MemoryIsNoContainer(hb.services, r.serviceAt, |hb.services|);
      }
    }

    method RaiseContainer(hb: Heartbeat, s: Service, now: int, ghost before: map<int, Row>)
      requires Valid() && clock <= now && 0 < now && s in hb.services && !s.active && s.kind == "docker"
      requires Carries(hb, before, rows) && NoneResolved(before, rows)
      modifies this
      ensures Valid() && clock <= now && Carries(hb, before, rows) && NoneResolved(before, rows)
      ensures forall n, t :: OpenSince(State(), n, t) ==
                if n == hb.node && t == ContainerTitle(s.name) && OpenSince(old(State()), n, t) == None
                then Some(now) else OpenSince(old(State()), n, t)
    {
      ghost var was, c := State(), clock;
      CreateIncident(hb.node, "critical", ContainerTitle(s.name), s.status, now);
      RaiseCarries(hb, before, was, State(), now, "critical", ContainerTitle(s.name), s.status);
      forall n, t
        ensures OpenSince(State(), n, t) ==
                if n == hb.node && t == ContainerTitle(s.name) && OpenSince(was, n, t) == None then Some(now) else OpenSince(was, n, t)
      {
        CreateOpens(was, c, now, hb.node, "critical", ContainerTitle(s.name), s.status, n, t);
      }
    }

    method RaiseMemory(hb: Heartbeat, now: int, detail: string)
      requires Valid() && clock <= now && 0 < now
      modifies this
      ensures Valid() && clock <= now && Carries(hb, old(rows), rows) && NoneResolved(old(rows), rows)
      ensures forall n, t :: OpenSince(State(), n, t) ==
                if n == hb.node && t == MEMORY_TITLE && hb.memoryUsed > 92.0 && OpenSince(old(State()), n, t) == None
                then Some(now) else OpenSince(old(State()), n, t)
    {
      if hb.memoryUsed > 92.0 {
        ghost var was, c := State(), clock;
        CreateIncident(hb.node, "warning", MEMORY_TITLE, detail, now);
        RaiseCarries(hb, was.rows, was, State(), now, "warning", MEMORY_TITLE, detail);
        forall n, t
          ensures OpenSince(State(), n, t) ==
                    if n == hb.node && t == MEMORY_TITLE && OpenSince(was, n, t) == None then Some(now) else OpenSince(was, n, t)
        {
          CreateOpens(was, c, now, hb.node, "warning", MEMORY_TITLE, detail, n, t);
        }
      }
    }

    method HasOpenSilentNodeIncident(node: string) returns (open: bool)
      ensures open <==> OpenSince(State(), node, SILENT_TITLE).Some?
    {
      var id := Lookup(node, SILENT_TITLE);
      open := id.Some?;
    }

    /** Returns whether a "Node Silent" incident of the node was open. */
    method ResolveSilentNodeIncident(node: string, at: int) returns (closed: bool)
      requires Valid() && clock <= at
      modifies this
      ensures Valid() && clock <= at
      ensures closed <==> OpenSince(old(State()), node, SILENT_TITLE).Some?
      ensures closed ==> Checked(old(State()), State(), node, DidClose, at, "")
      ensures !closed ==> State() == old(State())
      ensures forall n, t :: OpenSince(State(), n, t) ==
                if n == node && t == SILENT_TITLE then None else OpenSince(old(State()), n, t)
    {
      var open := Select((r: Row) => r.node == node && r.title == SILENT_TITLE);
      ghost var was, start := State(), clock;
      FindOpenMeans(was, start, node, SILENT_TITLE);
      var id := FindOpen(was, node, SILENT_TITLE);
      if id.Some? {
        assert Matches(was, id.value, node, SILENT_TITLE);
        assert id.value in open;
      }
      if |open| == 0 {
        return false;
      }
      assert open[0] in open;
      assert Matches(was, open[0], node, SILENT_TITLE);
      assert |open| == 1 by {
        if |open| > 1 {
          assert open[1] in open;
          assert Matches(was, open[1], node, SILENT_TITLE);
        }
      }
      var _ := MarkResolvedAndNotify(open[0], "auto:heartbeat_restored", at);
      forall n, t
        ensures OpenSince(State(), n, t) == if n == node && t == SILENT_TITLE then None else OpenSince(was, n, t)
      {
        CloseCloses(was, start, at, open[0], "auto:heartbeat_restored", true, n, t);
      }
      closed := true;
    }

    /** One pass over the nodes in memory (node to last heartbeat, in nanoseconds), in
        whatever order the map yields them. */
    method SilentNodeWatchdog(nodes: map<string, int>, now: int, at: int, detail: string) returns (res: WatchdogResult)
      requires Valid() && clock <= at && 0 < at
      modifies this
      ensures Valid() && clock <= at
      ensures forall n, t :: OpenSince(State(), n, t) == Watched(nodes, now, at, n, t, OpenSince(old(State()), n, t))
      ensures WatchedRows(old(rows), rows, {}, at, detail)
      ensures forall n :: n in nodes ==> (OpenSince(State(), n, "Node Silent").Some? <==> nodes[n] < now - 120_000_000_000)
      ensures res.nodesChecked == |nodes|
      ensures forall n :: n in res.raised <==>
                n in nodes && IsSilent(nodes[n], now) && OpenSince(old(State()), n, SILENT_TITLE) == None
      ensures forall n :: n in res.closed <==>
                n in nodes && !IsSilent(nodes[n], now) && OpenSince(old(State()), n, SILENT_TITLE).Some?
      ensures res.raised == [] && res.closed == [] ==> State() == old(State())
    {
      res := WatchdogResult(0, [], []);
      var left := nodes.Keys;
      while left != {}
        invariant left <= nodes.Keys && res.nodesChecked + |left| == |nodes|
        invariant WatchedRows(old(rows), rows, left, at, detail)
        invariant Valid() && clock <= at
        invariant Halfway(old(State()), State(), nodes, left, now, at)
        invariant Reports(res, nodes, left, now, old(State()))
        invariant res.raised == [] && res.closed == [] ==> State() == old(State())
        decreases |left|
      {
        var node :| node in left;
        ghost var was := State();
        var change := CheckNode(node, nodes[node], now, at, detail);
        CheckWatches(old(rows), was, State(), left, node, change, at, detail);
        HalfwayNext(old(State()), was, State(), nodes, left, now, at, node, change);
        ReportsNext(res, nodes, left, now, old(State()), node, change);
        res := WithChange(res, node, change);
        left := left - {node};
      }
    }

    /** The body of the watchdog's loop for one node. */
    method CheckNode(node: string, lastHeartbeat: int, now: int, at: int, detail: string) returns (change: Change)
      requires Valid() && clock <= at && 0 < at
      modifies this
      ensures Valid() && clock <= at
      ensures change == Due(lastHeartbeat, now, OpenSince(old(State()), node, SILENT_TITLE))
      ensures change == Unchanged ==> State() == old(State())
      ensures Checked(old(State()), State(), node, change, at, detail)
      ensures Changes(old(State()), State(), node, change, at)
    {
      if IsSilent(lastHeartbeat, now) {
        var already := HasOpenSilentNodeIncident(node);
        if already {
          return Unchanged;
        }
        ghost var was, c := State(), clock;
        FindOpenMeans(was, c, node, SILENT_TITLE);
        assert forall id :: id in was.rows && was.rows[id].node == node && was.rows[id].title == SILENT_TITLE ==>
            !Matches(was, id, node, SILENT_TITLE);
        CreateIncident(node, "critical", SILENT_TITLE, detail, at);
        forall n, t
          ensures OpenSince(State(), n, t) ==
                    if n == node && t == SILENT_TITLE && OpenSince(was, n, t) == None then Some(at) else OpenSince(was, n, t)
        {
          CreateOpens(was, c, at, node, "critical", SILENT_TITLE, detail, n, t);
        }
        return DidRaise;
      }
      var closed := ResolveSilentNodeIncident(node, at);
      return if closed then DidClose else Unchanged;
    }

    /** The sweep and the watchdog of one janitor pass. */
    method SweepAndWatch(nodes: map<string, int>, r: PassReadings, detail: string)
      returns (swept: nat, res: WatchdogResult, ghost mid: Db)
      requires Valid() && PassInOrder(r, clock)
      modifies this
      ensures Valid() && clock <= Clock.Unix(r.watchAt)
      ensures swept == |AbandonedRows(r.sweepNow, old(rows))|
      ensures ClosedExactly(old(State()), mid, AbandonedRows(r.sweepNow, old(rows)), Clock.Unix(r.sweepNow), WhyAbandoned())
      ensures WatchedRows(mid.rows, rows, {}, Clock.Unix(r.watchAt), detail)
      ensures forall n :: n in nodes ==> (OpenSince(State(), n, "Node Silent").Some? <==> nodes[n] < r.watchNow - 120_000_000_000)
      ensures Settles(old(State()), State(), nodes, r)
      ensures Quiet(nodes, r, old(State())) ==> swept == 0 && res.raised == [] && res.closed == [] && State() == old(State())
    {
      if Quiet(nodes, r, State()) {
        NothingAbandoned(State(), r.sweepNow);
      }
      swept := ResolveAbandonedAcrossFleet(r.sweepNow, r.sweepNow);
      mid := State();
      res := SilentNodeWatchdog(nodes, r.watchNow, Clock.Unix(r.watchAt), detail);
      assert res.raised != [] ==> res.raised[0] in res.raised;
      assert res.closed != [] ==> res.closed[0] in res.closed;
    }

    /** The incident part of one janitor pass: sweep, watchdog, retention. */
    method RunJanitorPass(nodes: map<string, int>, r: PassReadings, detail: string) returns (swept: nat, res: WatchdogResult)
      requires Valid() && PassInOrder(r, clock)
      modifies this
      ensures Valid() && clock <= Clock.Unix(r.watchAt)
      ensures Settles(old(State()), State(), nodes, r)
      ensures Quiet(nodes, r, old(State())) ==>
                swept == 0 && res.raised == [] && res.closed == [] && State() == Prune(old(State()), r.pruneCutoff)
      ensures NoneOld(State(), r.sweepNow)
      ensures State() == Prune(State(), r.pruneCutoff)
      ensures PassedRows(old(rows), rows, r, detail) && swept == |AbandonedRows(r.sweepNow, old(rows))|
      ensures forall n :: n in nodes ==> (OpenSince(State(), n, "Node Silent").Some? <==> nodes[n] < r.watchNow - 120_000_000_000)
    {
      ghost var was := State();
      ghost var mid;
      swept, res, mid := SweepAndWatch(nodes, r, detail);
      ghost var after := State();
      SettledIsYoung(was, after, nodes, r, clock);
      var _ := PruneResolved(r.pruneCutoff);
      PruneSettles(was, after, nodes, r, clock);
      PassMeans(was, mid, after, rows, r, detail);
      assert forall n :: OpenSince(State(), n, "Node Silent") == OpenSince(after, n, "Node Silent");
    }

    /** A second pass at the same clock finds nothing to do. */
    method RunJanitorTwice(nodes: map<string, int>, now: int, pruneCutoff: int, detail: string) returns (swept: nat, res: WatchdogResult)
      requires Valid() && Clock.SECOND <= now && clock <= Clock.Unix(now)
      modifies this
      ensures Valid() && swept == 0 && res.raised == [] && res.closed == []
      ensures Settles(old(State()), State(), nodes, PassReadings(now, now, now, pruneCutoff))
    {
      var r := PassReadings(now, now, now, pruneCutoff);
      swept, res := RunJanitorPass(nodes, r, detail);
      assert Quiet(nodes, r, State());
      label first:
      swept, res := RunJanitorPass(nodes, r, detail);
      assert State() == old@first(State());
    }
  }

  /** The container was reported stopped as a docker service, and a second later is reported
      stopped as another kind of service: no docker service is stopped, its incident is open. */
  method OtherKindStaysOpen(node: string, name: string, kind: string) returns (store: IncidentStore, hb: Heartbeat)
    requires name != "" && kind != "docker"
    ensures store.Valid() && hb.node == node && forall s :: s in hb.services ==> !StoppedDocker(s, name)
    ensures OpenSince(store.State(), node, ContainerTitle(name)).Some?
  {
    store := new IncidentStore();
    var first := Heartbeat(node, 0.0, [Service(name, "docker", false, "")]);
    var r := Readings(Clock.SECOND, [Clock.SECOND], Clock.SECOND, Clock.SECOND);
    assert ReadInTurn(r, 0);
    OpenedByDocker(node, name, r);
    store.IngestIncidents(first, r, "");
    hb := Heartbeat(node, 0.0, [Service(name, kind, false, "")]);
    r := Readings(2 * Clock.SECOND, [2 * Clock.SECOND], 2 * Clock.SECOND, 2 * Clock.SECOND);
    assert ReadInTurn(r, 0);
    StaysOpenForOtherKind(hb, r, name, Some(1));
    store.IngestIncidents(hb, r, "");
  }

  lemma {:induction false} CountDistinct(ids: seq<int>, s: set<int>)
    requires (forall id :: id in ids <==> id in s) && forall i, j :: 0 <= i < j < |ids| ==> ids[i] < ids[j]
    ensures |ids| == |s|
    decreases |ids|
  {
    if |ids| > 0 {
      var last := |ids| - 1;
      assert forall id :: id in ids <==> id in ids[..last] || id == ids[last];
      CountDistinct(ids[..last], s - {ids[last]});
    } else if s != {} {
      var id := Sets.Inhabited(s);
    }
  }

  lemma CardinalityOfParts(s: set<int>, a: set<int>, b: set<int>)
    requires s == a + b && a !! b
    ensures |s| == |a| + |b|
  {
  }
}
