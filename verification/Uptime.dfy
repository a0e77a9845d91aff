/** Wall-clock uptime: the gap between two heartbeats of a node is credited to the day of
    the second one, and daily readers report it per node and for the fleet. Heartbeats are
    in nanoseconds, the table holds whole seconds. */
module Uptime {
  import Clock
  import opened Options

  const ONLINE_WINDOW := 35_000_000_000
  const DAY := 86_400_000_000_000

  function DayOf(t: int): int {
    t / DAY
  }

  /** What a gap is worth: its whole seconds, at least one, unless the node was away. */
  function Credit(gap: int): int {
    if gap <= 0 || gap > ONLINE_WINDOW then 0 else if gap < Clock.SECOND then 1 else gap / Clock.SECOND
  }

  // ----- The heartbeat log

  datatype Beat = Beat(node: string, now: int)

  function LastSeen(log: seq<Beat>, n: nat, node: string): Option<int>
    requires n <= |log|
  {
    if n == 0 then None else if log[n - 1].node == node then Some(log[n - 1].now) else LastSeen(log, n - 1, node)
  }

  /** The gap before heartbeat `k` when it is short enough to count, 0 otherwise. */
  function OnlineGap(log: seq<Beat>, k: nat): int
    requires k < |log|
  {
    match LastSeen(log, k, log[k].node)
    case None => 0
    case Some(last) =>
      var gap := log[k].now - last;
      if 0 < gap <= ONLINE_WINDOW then gap else 0
  }

  function CreditAt(log: seq<Beat>, k: nat): int
    requires k < |log|
  {
    Credit(OnlineGap(log, k))
  }

  /** Seconds credited to `node` on `day` by the first `n` heartbeats. */
  function Credited(log: seq<Beat>, n: nat, node: string, day: int): int
    requires n <= |log|
  {
    if n == 0 then 0
    else
      Credited(log, n - 1, node, day) +
      if log[n - 1].node == node && DayOf(log[n - 1].now) == day then CreditAt(log, n - 1) else 0
  }

  lemma {:induction false} LogGrows(log: seq<Beat>, b: Beat, n: nat, node: string, day: int)
    requires n <= |log|
    ensures LastSeen(log + [b], n, node) == LastSeen(log, n, node)
    ensures Credited(log + [b], n, node, day) == Credited(log, n, node, day)
  {
    if n > 0 {
      LogGrows(log, b, n - 1, node, day);
      LogGrows(log, b, n - 1, log[n - 1].node, day);
    }
  }

  lemma BeatCredits(log: seq<Beat>, b: Beat, gap: int, node: string, day: int)
    requires gap == match LastSeen(log, |log|, b.node) case None => 0 case Some(last) => b.now - last
    ensures LastSeen(log + [b], |log| + 1, node) == (if node == b.node then Some(b.now) else LastSeen(log, |log|, node))
    ensures Credited(log + [b], |log| + 1, node, day) ==
            Credited(log, |log|, node, day) + if node == b.node && day == DayOf(b.now) then Credit(gap) else 0
  {
    LogGrows(log, b, |log|, node, day);
    LogGrows(log, b, |log|, b.node, day);
  }

  // ----- How far the credit is from the truth

  /** Credited seconds of a node, the nanoseconds it was seen online for, and the number of
      heartbeats credited, over the first `n` heartbeats and all days. */
  datatype Account = Account(seconds: int, nanos: int, beats: int)

  function AccountOf(log: seq<Beat>, n: nat, node: string): Account
    requires n <= |log|
  {
    if n == 0 then Account(0, 0, 0)
    else
      var a, gap := AccountOf(log, n - 1, node), OnlineGap(log, n - 1);
      if log[n - 1].node != node || gap == 0 then a
      else Account(a.seconds + Credit(gap), a.nanos + gap, a.beats + 1)
  }

  lemma {:induction false} AccountPrefix(log: seq<Beat>, b: Beat, n: nat, node: string)
    requires n <= |log|
    ensures AccountOf(log + [b], n, node) == AccountOf(log, n, node)
  {
    if n > 0 {
      AccountPrefix(log, b, n - 1, node);
      LogGrows(log, b, n - 1, log[n - 1].node, 0);
    }
  }

  lemma BeatAccounts(log: seq<Beat>, b: Beat, gap: int, node: string)
    requires gap == match LastSeen(log, |log|, b.node) case None => 0 case Some(last) => b.now - last
    ensures AccountOf(log + [b], |log| + 1, node).seconds ==
            AccountOf(log, |log|, node).seconds + if node == b.node then Credit(gap) else 0
  {
    AccountPrefix(log, b, |log|, node);
    LogGrows(log, b, |log|, b.node, 0);
  }

  lemma CreditIsClose(gap: int)
    requires 0 < gap <= ONLINE_WINDOW
    ensures -Clock.SECOND < Credit(gap) * Clock.SECOND - gap < Clock.SECOND && 1 <= Credit(gap) <= 35
  {
  }

  /** Credited seconds differ from the true online time by less than a second for every
      credited heartbeat, in either direction. */
  lemma {:induction false} CreditIsTrue(log: seq<Beat>, n: nat, node: string)
    requires n <= |log|
    ensures var a := AccountOf(log, n, node);
            0 <= a.beats <= a.seconds && -(Clock.SECOND - 1) * a.beats <= a.seconds * Clock.SECOND - a.nanos <= (Clock.SECOND - 1) * a.beats
  {
    if n > 0 {
      CreditIsTrue(log, n - 1, node);
      if OnlineGap(log, n - 1) != 0 {
        CreditIsClose(OnlineGap(log, n - 1));
      }
    }
  }

  /** The gaps of `node` longer than the online window. */
  function AwayTime(log: seq<Beat>, n: nat, node: string): int
    requires n <= |log|
  {
    if n == 0 then 0
    else
      AwayTime(log, n - 1, node) +
      match LastSeen(log, n - 1, node)
      case None => 0
      case Some(last) =>
        if log[n - 1].node == node && log[n - 1].now - last > ONLINE_WINDOW then log[n - 1].now - last else 0
  }

  function FirstSeen(log: seq<Beat>, n: nat, node: string): Option<int>
    requires n <= |log|
  {
    if n == 0 then None
    else if FirstSeen(log, n - 1, node).Some? then FirstSeen(log, n - 1, node)
    else if log[n - 1].node == node then Some(log[n - 1].now) else None
  }

  ghost predicate ClockRuns(log: seq<Beat>) {
    forall k :: 0 < k < |log| ==> log[k - 1].now <= log[k].now
  }

  /** When the clock does not step back, the time a node was seen online is all the time
      between its first and its last heartbeat, less the gaps it was away for. */
  lemma {:induction false} OnlineOrAway(log: seq<Beat>, n: nat, node: string)
    requires n <= |log| && ClockRuns(log)
    ensures LastSeen(log, n, node).Some? <==> FirstSeen(log, n, node).Some?
    ensures LastSeen(log, n, node).Some? ==> LastSeen(log, n, node).value <= log[n - 1].now
    ensures AccountOf(log, n, node).nanos + AwayTime(log, n, node) ==
            if LastSeen(log, n, node) == None then 0
            else LastSeen(log, n, node).value - FirstSeen(log, n, node).value
  {
    if n > 0 {
      OnlineOrAway(log, n - 1, node);
      assert n > 1 ==> log[n - 2].now <= log[n - 1].now;
    }
  }

  // ----- The table

  /** A row of node_uptime_daily; node and day are its key. */
  datatype Row = Row(node: string, day: int, total: int, up: int)

  ghost predicate NoTwin(rows: seq<Row>, j: nat)
    requires j < |rows|
  {
    forall i :: 0 <= i < j ==> rows[i].node != rows[j].node || rows[i].day != rows[j].day
  }

  ghost predicate Keyed(rows: seq<Row>) {
    forall j :: 0 <= j < |rows| ==> NoTwin(rows, j)
  }

  /** The seconds stored for a node and a day. */
  function Stored(rows: seq<Row>, n: nat, node: string, day: int): int
    requires n <= |rows|
  {
    if n == 0 then 0
    else Stored(rows, n - 1, node, day) + if rows[n - 1].node == node && rows[n - 1].day == day then rows[n - 1].total else 0
  }

  lemma {:induction false} StoredWhereMissing(rows: seq<Row>, n: nat, node: string, day: int)
    requires n <= |rows| && forall i :: 0 <= i < n ==> rows[i].node != node || rows[i].day != day
    ensures Stored(rows, n, node, day) == 0
  {
    if n > 0 {
      StoredWhereMissing(rows, n - 1, node, day);
    }
  }

  lemma {:induction false} StoredIsRow(rows: seq<Row>, n: nat, i: nat)
    requires i < n <= |rows| && Keyed(rows)
    ensures Stored(rows, n, rows[i].node, rows[i].day) == rows[i].total
  {
    assert NoTwin(rows, n - 1);
    if i == n - 1 {
      StoredWhereMissing(rows, i, rows[i].node, rows[i].day);
    } else {
      StoredIsRow(rows, n - 1, i);
    }
  }

  lemma {:induction false} StoredAfterUpdate(rows: seq<Row>, n: nat, i: nat, row: Row, node: string, day: int)
    requires i < |rows| && n <= |rows| && row.node == rows[i].node && row.day == rows[i].day
    ensures Stored(rows[i := row], n, node, day) ==
            Stored(rows, n, node, day) + if i < n && row.node == node && row.day == day then row.total - rows[i].total else 0
  {
    if n > 0 {
      StoredAfterUpdate(rows, n - 1, i, row, node, day);
    }
  }

  lemma {:induction false} StoredPrefix(rows: seq<Row>, row: Row, n: nat, node: string, day: int)
    requires n <= |rows|
    ensures Stored(rows + [row], n, node, day) == Stored(rows, n, node, day)
  {
    if n > 0 {
      StoredPrefix(rows, row, n - 1, node, day);
    }
  }

  /** The seconds stored for a node, over all days. */
  function StoredTotal(rows: seq<Row>, n: nat, node: string): int
    requires n <= |rows|
  {
    if n == 0 then 0 else StoredTotal(rows, n - 1, node) + if rows[n - 1].node == node then rows[n - 1].total else 0
  }

  lemma {:induction false} TotalAfterUpdate(rows: seq<Row>, n: nat, i: nat, row: Row, node: string)
    requires i < |rows| && n <= |rows| && row.node == rows[i].node
    ensures StoredTotal(rows[i := row], n, node) ==
            StoredTotal(rows, n, node) + if i < n && row.node == node then row.total - rows[i].total else 0
  {
    if n > 0 {
      TotalAfterUpdate(rows, n - 1, i, row, node);
    }
  }

  lemma {:induction false} TotalPrefix(rows: seq<Row>, row: Row, n: nat, node: string)
    requires n <= |rows|
    ensures StoredTotal(rows + [row], n, node) == StoredTotal(rows, n, node)
  {
    if n > 0 {
      TotalPrefix(rows, row, n - 1, node);
    }
  }

  // ----- The fleet

  /** The seconds stored for a day, over all nodes. */
  function FleetStored(rows: seq<Row>, n: nat, day: int): int
    requires n <= |rows|
  {
    if n == 0 then 0 else FleetStored(rows, n - 1, day) + if rows[n - 1].day == day then rows[n - 1].total else 0
  }

  function SumOverNodes(rows: seq<Row>, n: nat, nodes: seq<string>, m: nat, day: int): int
    requires n <= |rows| && m <= |nodes|
  {
    if m == 0 then 0 else SumOverNodes(rows, n, nodes, m - 1, day) + Stored(rows, n, nodes[m - 1], day)
  }

  ghost predicate NewNode(nodes: seq<string>, j: nat)
    requires j < |nodes|
  {
    forall i :: 0 <= i < j ==> nodes[i] != nodes[j]
  }

  /** The first `m` of the nodes are different ones. */
  ghost predicate Distinct(nodes: seq<string>, m: nat)
    requires m <= |nodes|
  {
    forall j :: 0 <= j < m ==> NewNode(nodes, j)
  }

  ghost predicate Listed(nodes: seq<string>, m: nat, node: string)
    requires m <= |nodes|
  {
    exists j :: 0 <= j < m && nodes[j] == node
  }

  lemma {:induction false} RowCountsOnce(rows: seq<Row>, n: nat, nodes: seq<string>, m: nat, day: int)
    requires 0 < n <= |rows| && m <= |nodes| && Distinct(nodes, m)
    ensures SumOverNodes(rows, n, nodes, m, day) == SumOverNodes(rows, n - 1, nodes, m, day) +
            if rows[n - 1].day == day && Listed(nodes, m, rows[n - 1].node) then rows[n - 1].total else 0
  {
    if m > 0 {
      RowCountsOnce(rows, n, nodes, m - 1, day);
      assert NewNode(nodes, m - 1);
    }
  }

  lemma {:induction false} NoRowsNoSum(rows: seq<Row>, nodes: seq<string>, m: nat, day: int)
    requires m <= |nodes|
    ensures SumOverNodes(rows, 0, nodes, m, day) == 0
  {
    if m > 0 {
      NoRowsNoSum(rows, nodes, m - 1, day);
    }
  }

  /** On every day the fleet's seconds are the sum of its nodes' seconds. */
  lemma {:induction false} FleetIsSumOfNodes(rows: seq<Row>, n: nat, nodes: seq<string>, day: int)
    requires n <= |rows| && Distinct(nodes, |nodes|)
    requires forall i :: 0 <= i < |rows| ==> Listed(nodes, |nodes|, rows[i].node)
    ensures FleetStored(rows, n, day) == SumOverNodes(rows, n, nodes, |nodes|, day)
  {
    if n == 0 {
      NoRowsNoSum(rows, nodes, |nodes|, day);
    } else {
      FleetIsSumOfNodes(rows, n - 1, nodes, day);
      RowCountsOnce(rows, n, nodes, |nodes|, day);
    }
  }

  // ----- The store

  datatype Bucket = Bucket(day: int, total: int, up: int, pct: real)

  function Clamp(days: int): (d: int)
    ensures 1 <= d <= 90
  {
    if days < 1 then 1 else if days > 90 then 90 else days
  }

  function Percent(up: int, total: int): real {
    if total > 0 then up as real / total as real * 100.0 else 0.0
  }

  function SumCredited(log: seq<Beat>, nodes: seq<string>, m: nat, day: int): int
    requires m <= |nodes|
  {
    if m == 0 then 0 else SumCredited(log, nodes, m - 1, day) + Credited(log, |log|, nodes[m - 1], day)
  }

  function Twice(x: int): (int, int) {
    (x, x)
  }

  function Get(m: map<int, (int, int)>, day: int): (int, int) {
    if day in m then m[day] else (0, 0)
  }

  /** The bucket shows those seconds. As up and total seconds never differ, a day reads
      either a hundred per cent or, without any credit, zero. */
  ghost predicate Shows(b: Bucket, seconds: int) {
    b.total == b.up == seconds && b.pct == (if seconds > 0 then 100.0 else 0.0)
  }

  lemma AllUpIsHundred(x: int)
    ensures Percent(x, x) == if x > 0 then 100.0 else 0.0
  {
    if x > 0 {
      assert x as real / x as real == 1.0;
    }
  }

  /** As many days as asked for, at least one and at most ninety, the last of them that of `now`. */
  ghost predicate UpToToday(out: seq<Bucket>, days: int, now: int) {
    && (1 <= days <= 90 ==> |out| == days) && (days < 1 ==> |out| == 1) && (90 < days ==> |out| == 90)
    && (forall i :: 0 <= i < |out| - 1 ==> out[i + 1].day == out[i].day + 1)
    && out != [] && out[|out| - 1].day * 86_400_000_000_000 <= now < (out[|out| - 1].day + 1) * 86_400_000_000_000
  }

  method Emit(byDay: map<int, (int, int)>, today: int, days: int) returns (out: seq<Bucket>)
    requires 1 <= days && forall d :: Get(byDay, d).0 == Get(byDay, d).1
    ensures |out| == days
    ensures forall i :: 0 <= i < days ==> out[i].day == today - days + 1 + i && Shows(out[i], Get(byDay, out[i].day).0)
  {
    out := [];
    for i := 0 to days
      invariant |out| == i
      invariant forall k :: 0 <= k < i ==> out[k].day == today - days + 1 + k && Shows(out[k], Get(byDay, out[k].day).0)
    {
      var key := today - days + 1 + i;
      var v := Get(byDay, key);
      AllUpIsHundred(v.0);
      out := out + [Bucket(key, v.0, v.1, Percent(v.1, v.0))];
    }
  }

  class UptimeStore {
    var lastSeen: map<string, int>
    var rows: seq<Row>
    ghost var log: seq<Beat>

    ghost predicate Seen(node: string)
      reads this
    {
      LastSeen(log, |log|, node) == if node in lastSeen then Some(lastSeen[node]) else None
    }

    ghost predicate Balanced(node: string, day: int)
      reads this
    {
      Stored(rows, |rows|, node, day) == Credited(log, |log|, node, day)
    }

    ghost predicate BalancedOverall(node: string)
      reads this
    {
      StoredTotal(rows, |rows|, node) == AccountOf(log, |log|, node).seconds
    }

    /** The tracker and the table say what the heartbeat log says. */
    ghost predicate Valid()
      reads this
    {
      && Keyed(rows)
      && (forall i :: 0 <= i < |rows| ==> rows[i].total == rows[i].up)
      && (forall node :: Seen(node))
      && (forall node, day :: Balanced(node, day))
      && (forall node :: BalancedOverall(node))
    }

    constructor ()
      ensures Valid() && log == [] && rows == [] && lastSeen == map[]
    {
      lastSeen, rows, log := map[], [], [];
    }

    method FindRow(node: string, day: int) returns (i: nat)
      ensures i <= |rows|
      ensures i < |rows| ==> rows[i].node == node && rows[i].day == day
      ensures forall k :: 0 <= k < i ==> rows[k].node != node || rows[k].day != day
    {
      i := 0;
      while i < |rows| && (rows[i].node != node || rows[i].day != day)
        invariant i <= |rows|
        invariant forall k :: 0 <= k < i ==> rows[k].node != node || rows[k].day != day
      {
        i := i + 1;
      }
    }

    method UpsertUptime(node: string, day: int, totalDelta: int, upDelta: int)
      requires Keyed(rows) && totalDelta == upDelta && forall i :: 0 <= i < |rows| ==> rows[i].total == rows[i].up
      modifies this`rows
      ensures Keyed(rows) && forall i :: 0 <= i < |rows| ==> rows[i].total == rows[i].up
      ensures forall n, d :: Stored(rows, |rows|, n, d) ==
                old(Stored(rows, |rows|, n, d)) + if n == node && d == day then totalDelta else 0
      ensures forall n :: StoredTotal(rows, |rows|, n) == old(StoredTotal(rows, |rows|, n)) + if n == node then totalDelta else 0
    {
      ghost var before := rows;
      var i := FindRow(node, day);
      if i < |rows| {
        var row := Row(node, day, rows[i].total + totalDelta, rows[i].up + upDelta);
        rows := rows[i := row];
        forall n, d
          ensures Stored(rows, |rows|, n, d) == Stored(before, |before|, n, d) + if n == node && d == day then totalDelta else 0
        {
          StoredAfterUpdate(before, |before|, i, row, n, d);
        }
        forall n
          ensures StoredTotal(rows, |rows|, n) == StoredTotal(before, |before|, n) + if n == node then totalDelta else 0
        {
          TotalAfterUpdate(before, |before|, i, row, n);
        }
      } else {
        var row := Row(node, day, totalDelta, upDelta);
        rows := rows + [row];
        forall n, d
          ensures Stored(rows, |rows|, n, d) == Stored(before, |before|, n, d) + if n == node && d == day then totalDelta else 0
        {
          StoredPrefix(before, row, |before|, n, d);
        }
        forall n
          ensures StoredTotal(rows, |rows|, n) == StoredTotal(before, |before|, n) + if n == node then totalDelta else 0
        {
          TotalPrefix(before, row, |before|, n);
        }
      }
      forall j | 0 <= j < |rows|
        ensures NoTwin(rows, j)
      {
        assert j < |before| ==> NoTwin(before, j);
      }
    }

    /** The credited gap, 0 when nothing is credited. */
    method RecordHeartbeat(node: string, now: int) returns (credited: int)
      requires Valid()
      modifies this
      ensures Valid() && log == old(log) + [Beat(node, now)]
      ensures lastSeen == old(lastSeen)[node := now]
      ensures var gap := if node in old(lastSeen) then now - old(lastSeen)[node] else 0;
              if 0 < gap <= 35_000_000_000 then
                credited == gap &&
                forall day :: day * 86_400_000_000_000 <= now < (day + 1) * 86_400_000_000_000 ==>
                  Stored(rows, |rows|, node, day) ==
                  old(Stored(rows, |rows|, node, day)) + if gap < 1_000_000_000 then 1 else gap / 1_000_000_000
              else credited == 0 && rows == old(rows)
      ensures credited == OnlineGap(log, |log| - 1)
    {
      ghost var b := Beat(node, now);
      ghost var prior := log;
      var known := node in lastSeen;
      var last := if known then lastSeen[node] else 0;
      assert Seen(node);
      lastSeen := lastSeen[node := now];
      log := log + [b];
      var delta := if known then now - last else 0;
      if !known || delta <= 0 || delta > ONLINE_WINDOW {
        credited := 0;
      } else {
        var secs := if delta / Clock.SECOND < 1 then 1 else delta / Clock.SECOND;
        UpsertUptime(node, DayOf(now), secs, secs);
        credited := delta;
      }
      forall n
        ensures Seen(n)
      {
        BeatCredits(prior, b, if known then now - last else 0, n, 0);
        assert old(Seen(n));
      }
      forall n, d
        ensures Balanced(n, d)
      {
        BeatCredits(prior, b, if known then now - last else 0, n, d);
        assert old(Balanced(n, d));
      }
      forall n
        ensures BalancedOverall(n)
      {
        BeatAccounts(prior, b, if known then now - last else 0, n);
        assert old(BalancedOverall(n));
      }
      LogGrows(prior, b, |prior|, node, 0);
    }

    /** The seconds stored for a node differ from the time it was seen online by less than a
        second for every heartbeat credited to it. */
    lemma StoredIsTrue(node: string)
      requires Valid()
      ensures var a := AccountOf(log, |log|, node);
              -(Clock.SECOND - 1) * a.beats <= StoredTotal(rows, |rows|, node) * Clock.SECOND - a.nanos <= (Clock.SECOND - 1) * a.beats
    {
      assert BalancedOverall(node);
      CreditIsTrue(log, |log|, node);
    }

    /** If the clock never stepped back, that time is all the time from the node's first to
        its last heartbeat, less the gaps it was away for. */
    lemma StoredIsPresence(node: string)
      requires Valid() && ClockRuns(log) && FirstSeen(log, |log|, node).Some?
      ensures LastSeen(log, |log|, node).Some?
      ensures var a := AccountOf(log, |log|, node);
              var present := LastSeen(log, |log|, node).value - FirstSeen(log, |log|, node).value - AwayTime(log, |log|, node);
              -(Clock.SECOND - 1) * a.beats <= StoredTotal(rows, |rows|, node) * Clock.SECOND - present <= (Clock.SECOND - 1) * a.beats
    {
      OnlineOrAway(log, |log|, node);
      StoredIsTrue(node);
    }

    /** None for an empty node name. */
    method NodeUptimeDaily(node: string, days: int, now: int) returns (out: Option<seq<Bucket>>)
      requires Valid()
      ensures out == None <==> node == ""
      ensures out.Some? ==> UpToToday(out.value, days, now)
      ensures var n, first := Clamp(days), DayOf(now) - Clamp(days) + 1;
              out.Some? ==> |out.value| == n && forall i :: 0 <= i < n ==>
                out.value[i].day == first + i && Shows(out.value[i], Credited(log, |log|, node, out.value[i].day))
    {
      if node == "" {
        return None;
      }
      var n, today := Clamp(days), DayOf(now);
      var cutoff := today - n + 1;
      var byDay: map<int, (int, int)> := map[];
      for k := 0 to |rows|
        invariant forall d :: Get(byDay, d) == Twice(if d >= cutoff then Stored(rows, k, node, d) else 0)
      {
        ghost var before := byDay;
        if rows[k].node == node && rows[k].day >= cutoff {
          assert NoTwin(rows, k);
          StoredWhereMissing(rows, k, node, rows[k].day);
          byDay := byDay[rows[k].day := (rows[k].total, rows[k].up)];
        }
        forall d
          ensures Get(byDay, d) == Twice(if d >= cutoff then Stored(rows, k + 1, node, d) else 0)
        {
          assert Get(before, d) == Twice(if d >= cutoff then Stored(rows, k, node, d) else 0);
        }
      }
      var buckets := Emit(byDay, today, n);
      forall i | 0 <= i < n
        ensures Shows(buckets[i], Credited(log, |log|, node, buckets[i].day))
      {
        assert Balanced(node, buckets[i].day);
      }
      out := Some(buckets);
    }

    method FleetUptimeDaily(days: int, now: int) returns (out: seq<Bucket>)
      requires Valid()
      ensures UpToToday(out, days, now)
      ensures var first := DayOf(now) - Clamp(days) + 1;
              |out| == Clamp(days) && forall i :: 0 <= i < |out| ==>
                out[i].day == first + i && Shows(out[i], FleetStored(rows, |rows|, out[i].day))
    {
      var n, today := Clamp(days), DayOf(now);
      var cutoff := today - n + 1;
      var byDay: map<int, (int, int)> := map[];
      for k := 0 to |rows|
        invariant forall d :: Get(byDay, d) == Twice(if d >= cutoff then FleetStored(rows, k, d) else 0)
      {
        ghost var before := byDay;
        if rows[k].day >= cutoff {
          var sum := Get(byDay, rows[k].day);
          byDay := byDay[rows[k].day := (sum.0 + rows[k].total, sum.1 + rows[k].up)];
        }
        forall d
          ensures Get(byDay, d) == Twice(if d >= cutoff then FleetStored(rows, k + 1, d) else 0)
        {
          assert Get(before, d) == Twice(if d >= cutoff then FleetStored(rows, k, d) else 0);
        }
      }
      out := Emit(byDay, today, n);
    }

    /** On every day the fleet's bucket is the sum, over its nodes, of the seconds credited
        to each by its heartbeats. */
    lemma FleetIsCredited(nodes: seq<string>, day: int)
      requires Valid() && Distinct(nodes, |nodes|) && forall i :: 0 <= i < |rows| ==> Listed(nodes, |nodes|, rows[i].node)
      ensures FleetStored(rows, |rows|, day) == SumCredited(log, nodes, |nodes|, day)
    {
      FleetIsSumOfNodes(rows, |rows|, nodes, day);
      StoredIsCredited(nodes, |nodes|, day);
    }

    lemma {:induction false} StoredIsCredited(nodes: seq<string>, m: nat, day: int)
      requires Valid() && m <= |nodes|
      ensures SumOverNodes(rows, |rows|, nodes, m, day) == SumCredited(log, nodes, m, day)
    {
      if m > 0 {
        StoredIsCredited(nodes, m - 1, day);
        assert Balanced(nodes[m - 1], day);
      }
    }
  }
}
