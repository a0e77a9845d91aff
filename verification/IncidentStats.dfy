/** The incident sparkline: two grouped queries merged into a bucket map and emitted as
    contiguous buckets. */
module IncidentStats {
  import Sets

  datatype Incident = Incident(severity: string, startedAt: int, resolvedAt: int)

  datatype Bucket = Bucket(ts: int, criticalOpened: int, warningOpened: int, criticalResolved: int, warningResolved: int)

  const HOUR := 3600
  const DAY := 24 * HOUR

  /** Window and bucket length of a range key; an unknown key means a week. */
  function RangeOf(key: string): (r: (int, int))
    ensures 0 < r.1 && r.0 % r.1 == 0 && 0 < r.0
  {
    if key == "24h" then (DAY, HOUR)
    else if key == "30d" then (30 * DAY, DAY)
    else (7 * DAY, 6 * HOUR)
  }

  /** Integer division that truncates toward zero, in the query and in the program. */
  function Trunc(x: int, b: int): int
    requires 0 < b
  {
    if x >= 0 then x / b else -((-x) / b)
  }

  function BucketOf(x: int, b: int): int
    requires 0 < b
  {
    Trunc(x, b) * b
  }

  /** Which of the two times of an incident is counted. */
  datatype Kind = Opened | Resolved

  function TimeOf(kind: Kind, i: Incident): int {
    if kind == Opened then i.startedAt else i.resolvedAt
  }

  /** Whether the query of that kind selects the incident: in the window, and for the
      resolved ones actually resolved. */
  predicate Selected(kind: Kind, i: Incident, from: int, now: int) {
    from <= TimeOf(kind, i) <= now && (kind == Resolved ==> i.resolvedAt > 0)
  }

  /** How many of the first `n` incidents of a severity are selected with a time in [lo, hi]. */
  function CountIn(rows: seq<Incident>, n: nat, kind: Kind, severity: string, from: int, now: int, lo: int, hi: int): nat
    requires n <= |rows|
  {
    if n == 0 then 0
    else
      CountIn(rows, n - 1, kind, severity, from, now, lo, hi) +
      if Selected(kind, rows[n - 1], from, now) && rows[n - 1].severity == severity && lo <= TimeOf(kind, rows[n - 1]) <= hi then 1 else 0
  }

  /** The sum the query reports for one bucket value and severity. */
  function GroupSum(rows: seq<Incident>, n: nat, kind: Kind, severity: string, from: int, now: int, b: int, ts: int): nat
    requires n <= |rows| && 0 < b
  {
    if n == 0 then 0
    else
      GroupSum(rows, n - 1, kind, severity, from, now, b, ts) +
      if Selected(kind, rows[n - 1], from, now) && rows[n - 1].severity == severity && BucketOf(TimeOf(kind, rows[n - 1]), b) == ts then 1 else 0
  }

  /** SELECT (t / b) * b, SUM(critical), SUM(warning) ... GROUP BY bucket. */
  function Query(rows: seq<Incident>, kind: Kind, from: int, now: int, b: int): (m: map<int, (int, int)>)
    requires 0 < b
  {
    map ts | ts in (set i | 0 <= i < |rows| && Selected(kind, rows[i], from, now) :: BucketOf(TimeOf(kind, rows[i]), b)) ::
      (GroupSum(rows, |rows|, kind, "critical", from, now, b, ts), GroupSum(rows, |rows|, kind, "warning", from, now, b, ts))
  }

  /** Looking a bucket up, with zeros for a bucket the query has no group for, is the
      group sum whatever the bucket. */
  lemma QueryMeans(rows: seq<Incident>, kind: Kind, from: int, now: int, b: int, ts: int)
    requires 0 < b
    ensures var q := Query(rows, kind, from, now, b);
            var r := if ts in q then q[ts] else (0, 0);
            r.0 == GroupSum(rows, |rows|, kind, "critical", from, now, b, ts) && r.1 == GroupSum(rows, |rows|, kind, "warning", from, now, b, ts)
  {
    var q := Query(rows, kind, from, now, b);
    if ts !in q {
      forall i | 0 <= i < |rows| && Selected(kind, rows[i], from, now)
        ensures BucketOf(TimeOf(kind, rows[i]), b) != ts
      {
        assert BucketOf(TimeOf(kind, rows[i]), b) in q;
      }
      EmptyGroup(rows, |rows|, kind, "critical", from, now, b, ts);
      EmptyGroup(rows, |rows|, kind, "warning", from, now, b, ts);
    }
  }

  lemma {:induction false} EmptyGroup(rows: seq<Incident>, n: nat, kind: Kind, severity: string, from: int, now: int, b: int, ts: int)
    requires n <= |rows| && 0 < b
    requires forall i :: 0 <= i < |rows| && Selected(kind, rows[i], from, now) ==> BucketOf(TimeOf(kind, rows[i]), b) != ts
    ensures GroupSum(rows, n, kind, severity, from, now, b, ts) == 0
  {
    if n > 0 {
      EmptyGroup(rows, n - 1, kind, severity, from, now, b, ts);
    }
  }

  /** Which times fall into the bucket at `ts`: a whole interval, twice as long (less one)
      at zero, where truncation folds both sides together. */
  function FirstOf(ts: int, b: int): int {
    if ts <= 0 then ts - b + 1 else ts
  }

  function LastOf(ts: int, b: int): int {
    if ts >= 0 then ts + b - 1 else ts
  }

  lemma MulMonotone(a: int, c: int, b: int)
    requires a <= c && 0 < b
    ensures a * b <= c * b
  {
    assert (c - a) * b >= 0;
    assert (c - a) * b == c * b - a * b;
  }

  lemma DivMeans(x: int, b: int, k: int)
    requires 0 < b
    ensures x / b == k <==> k * b <= x < k * b + b
  {
    var q := x / b;
    assert q * b <= x < q * b + b;
    if q < k {
      MulMonotone(q + 1, k, b);
      assert (q + 1) * b == q * b + b;
    } else if k < q {
      MulMonotone(k + 1, q, b);
      assert (k + 1) * b == k * b + b;
    }
  }

  lemma SameMultiple(q: int, k: int, b: int)
    requires 0 < b
    ensures q * b == k * b <==> q == k
    ensures k * b >= 0 <==> k >= 0
    ensures k * b <= 0 <==> k <= 0
  {
    if q < k {
      MulMonotone(q + 1, k, b);
      assert (q + 1) * b == q * b + b;
    } else if k < q {
      MulMonotone(k + 1, q, b);
      assert (k + 1) * b == k * b + b;
    }
    if k > 0 {
      MulMonotone(1, k, b);
    } else if k < 0 {
      MulMonotone(k, -1, b);
    }
  }

  lemma TruncMeans(x: int, b: int, k: int)
    requires 0 < b
    ensures Trunc(x, b) == k <==> FirstOf(k * b, b) <= x <= LastOf(k * b, b)
  {
    SameMultiple(0, k, b);
    if k != 0 {
      if k > 0 {
        MulMonotone(1, k, b);
      } else {
        MulMonotone(k, -1, b);
      }
    }
    if x >= 0 {
      DivMeans(x, b, k);
    } else {
      DivMeans(-x, b, -k);
      assert (-k) * b == -(k * b);
    }
  }

  lemma BucketMeans(x: int, b: int, k: int)
    requires 0 < b
    ensures BucketOf(x, b) == k * b <==> FirstOf(k * b, b) <= x <= LastOf(k * b, b)
  {
    TruncMeans(x, b, k);
    SameMultiple(Trunc(x, b), k, b);
  }

  // ----- Group sums are counts over intervals, and lose nothing

  lemma {:induction false} GroupIsInterval(rows: seq<Incident>, n: nat, kind: Kind, severity: string, from: int, now: int, b: int, k: int)
    requires n <= |rows| && 0 < b
    ensures GroupSum(rows, n, kind, severity, from, now, b, k * b) ==
            CountIn(rows, n, kind, severity, from, now, FirstOf(k * b, b), LastOf(k * b, b))
  {
    if n > 0 {
      GroupIsInterval(rows, n - 1, kind, severity, from, now, b, k);
      BucketMeans(TimeOf(kind, rows[n - 1]), b, k);
    }
  }

  /** The sum over the buckets k0, ..., k0 + m - 1. */
  function SumOfGroups(rows: seq<Incident>, n: nat, kind: Kind, severity: string, from: int, now: int, b: int, k0: int, m: nat): nat
    requires n <= |rows| && 0 < b
  {
    if m == 0 then 0
    else SumOfGroups(rows, n, kind, severity, from, now, b, k0, m - 1) + GroupSum(rows, n, kind, severity, from, now, b, (k0 + m - 1) * b)
  }

  /** A row adds one to the bucket it belongs to and to no other. */
  lemma {:induction false} RowCountsOnce(rows: seq<Incident>, n: nat, kind: Kind, severity: string, from: int, now: int, b: int, k0: int, m: nat)
    requires 0 < n <= |rows| && 0 < b
    ensures var r := rows[n - 1];
            var k := Trunc(TimeOf(kind, r), b);
            SumOfGroups(rows, n, kind, severity, from, now, b, k0, m) ==
              SumOfGroups(rows, n - 1, kind, severity, from, now, b, k0, m) +
              if Selected(kind, r, from, now) && r.severity == severity && k0 <= k < k0 + m then 1 else 0
  {
    if m > 0 {
      RowCountsOnce(rows, n, kind, severity, from, now, b, k0, m - 1);
      SameMultiple(Trunc(TimeOf(kind, rows[n - 1]), b), k0 + m - 1, b);
    }
  }

  lemma TruncMonotone(x: int, y: int, b: int)
    requires 0 < b && x <= y
    ensures Trunc(x, b) <= Trunc(y, b)
  {
    if 0 <= x {
      DivMonotone(x, y, b);
    } else if y < 0 {
      DivMonotone(-y, -x, b);
    } else {
      DivMonotone(0, y, b);
      DivMonotone(0, -x, b);
    }
  }

  lemma DivMonotone(x: int, y: int, b: int)
    requires 0 < b && 0 <= x <= y
    ensures 0 <= x / b <= y / b
  {
    DivMeans(y, b, y / b);
    DivMeans(x, b, x / b);
    if x / b > y / b {
      MulMonotone(y / b + 1, x / b, b);
    }
  }

  /** The buckets from that of `from` to that of `now` together count every selected row. */
  lemma {:induction false} NothingLost(rows: seq<Incident>, n: nat, kind: Kind, severity: string, from: int, now: int, b: int)
    requires n <= |rows| && 0 < b && from <= now
    ensures var k0, k1 := Trunc(from, b), Trunc(now, b);
            k0 <= k1 && SumOfGroups(rows, n, kind, severity, from, now, b, k0, k1 - k0 + 1) ==
              CountIn(rows, n, kind, severity, from, now, from, now)
  {
    var k0, k1 := Trunc(from, b), Trunc(now, b);
    TruncMonotone(from, now, b);
    if n == 0 {
      NoRows(rows, kind, severity, from, now, b, k0, k1 - k0 + 1);
    } else {
      NothingLost(rows, n - 1, kind, severity, from, now, b);
      RowCountsOnce(rows, n, kind, severity, from, now, b, k0, k1 - k0 + 1);
      var t := TimeOf(kind, rows[n - 1]);
      if from <= t <= now {
        TruncMonotone(from, t, b);
        TruncMonotone(t, now, b);
      }
    }
  }

  lemma {:induction false} NoRows(rows: seq<Incident>, kind: Kind, severity: string, from: int, now: int, b: int, k0: int, m: nat)
    requires 0 < b
    ensures SumOfGroups(rows, 0, kind, severity, from, now, b, k0, m) == 0
  {
    if m > 0 {
      NoRows(rows, kind, severity, from, now, b, k0, m - 1);
    }
  }

  // ----- Merging and emitting

  datatype Counts = Counts(criticalOpened: int, warningOpened: int, criticalResolved: int, warningResolved: int)

  const ZERO := Counts(0, 0, 0, 0)

  function Get<T>(m: map<int, T>, ts: int, default: T): T {
    if ts in m then m[ts] else default
  }

  method MergeOpened(q: map<int, (int, int)>) returns (buckets: map<int, Counts>)
    ensures forall ts :: Get(buckets, ts, ZERO) == (var c := Get(q, ts, (0, 0)); Counts(c.0, c.1, 0, 0))
  {
    buckets := map[];
    var left := q.Keys;
    while left != {}
      invariant left <= q.Keys && buckets.Keys == q.Keys - left
      invariant forall ts :: ts in buckets ==> buckets[ts] == Counts(q[ts].0, q[ts].1, 0, 0)
      decreases |left|
    {
      ghost var some := Sets.Inhabited(left);
      var ts :| ts in left;
      left := left - {ts};
      buckets := buckets[ts := Counts(q[ts].0, q[ts].1, 0, 0)];
    }
  }

  method MergeResolved(first: map<int, Counts>, q: map<int, (int, int)>) returns (buckets: map<int, Counts>)
    ensures forall ts :: Get(buckets, ts, ZERO) == Added(Get(first, ts, ZERO), Get(q, ts, (0, 0)))
  {
    buckets := first;
    var left := q.Keys;
    while left != {}
      invariant left <= q.Keys
      invariant forall ts :: Get(buckets, ts, ZERO) ==
                  if ts in left then Get(first, ts, ZERO) else Added(Get(first, ts, ZERO), Get(q, ts, (0, 0)))
      decreases |left|
    {
      ghost var some := Sets.Inhabited(left);
      var ts :| ts in left;
      left := left - {ts};
      var b := if ts in buckets then buckets[ts] else ZERO;
      buckets := buckets[ts := b.(criticalResolved := b.criticalResolved + q[ts].0, warningResolved := b.warningResolved + q[ts].1)];
    }
  }

  function Added(c: Counts, r: (int, int)): Counts {
    c.(criticalResolved := c.criticalResolved + r.0, warningResolved := c.warningResolved + r.1)
  }

  /** The emitted bucket holds, per severity, the selected incidents whose time falls into
      the bucket's interval. */
  ghost predicate Tells(out: Bucket, rows: seq<Incident>, from: int, now: int, b: int)
    requires 0 < b
  {
    var lo, hi := FirstOf(out.ts, b), LastOf(out.ts, b);
    && out.criticalOpened == CountIn(rows, |rows|, Opened, "critical", from, now, lo, hi)
    && out.warningOpened == CountIn(rows, |rows|, Opened, "warning", from, now, lo, hi)
    && out.criticalResolved == CountIn(rows, |rows|, Resolved, "critical", from, now, lo, hi)
    && out.warningResolved == CountIn(rows, |rows|, Resolved, "warning", from, now, lo, hi)
  }

  lemma MergedTells(rows: seq<Incident>, from: int, now: int, b: int, k: int, c: Counts)
    requires 0 < b
    requires var o, r := Get(Query(rows, Opened, from, now, b), k * b, (0, 0)), Get(Query(rows, Resolved, from, now, b), k * b, (0, 0));
             c == Counts(o.0, o.1, r.0, r.1)
    ensures Tells(Bucket(k * b, c.criticalOpened, c.warningOpened, c.criticalResolved, c.warningResolved), rows, from, now, b)
  {
    QueryMeans(rows, Opened, from, now, b, k * b);
    QueryMeans(rows, Resolved, from, now, b, k * b);
    GroupIsInterval(rows, |rows|, Opened, "critical", from, now, b, k);
    GroupIsInterval(rows, |rows|, Opened, "warning", from, now, b, k);
    GroupIsInterval(rows, |rows|, Resolved, "critical", from, now, b, k);
    GroupIsInterval(rows, |rows|, Resolved, "warning", from, now, b, k);
  }

  /** Bucket `i` of the answer is the i-th after `k0`, and tells of its interval. */
  ghost predicate EmittedAt(out: seq<Bucket>, i: nat, k0: int, rows: seq<Incident>, from: int, now: int, b: int)
    requires i < |out| && 0 < b
  {
    out[i].ts == (k0 + i) * b && Tells(out[i], rows, from, now, b)
  }

  /** One bucket after the other from that of `from` to that of `now`, each telling of its interval. */
  ghost predicate Emitted(out: seq<Bucket>, rows: seq<Incident>, from: int, now: int, b: int)
    requires 0 < b
  {
    |out| == now / b - Trunc(from, b) + 1 && forall i :: 0 <= i < |out| ==> EmittedAt(out, i, Trunc(from, b), rows, from, now, b)
  }

  /** The merged map holds, for every bucket, what the two queries say of it. */
  ghost predicate Merged(buckets: map<int, Counts>, rows: seq<Incident>, from: int, now: int, b: int)
    requires 0 < b
  {
    var o, r := Query(rows, Opened, from, now, b), Query(rows, Resolved, from, now, b);
    forall ts :: Get(buckets, ts, ZERO) ==
      Counts(Get(o, ts, (0, 0)).0, Get(o, ts, (0, 0)).1, Get(r, ts, (0, 0)).0, Get(r, ts, (0, 0)).1)
  }

  method Materialize(buckets: map<int, Counts>, from: int, now: int, b: int, ghost rows: seq<Incident>) returns (out: seq<Bucket>)
    requires 0 < b && from <= now && 0 <= now && Merged(buckets, rows, from, now, b)
    ensures Emitted(out, rows, from, now, b)
  {
    out := [];
    ghost var k0, k := Trunc(from, b), Trunc(from, b);
    TruncMonotone(from, now, b);
    var ts := BucketOf(from, b);
    while ts <= now
      invariant ts == k * b && k == k0 + |out| && k <= now / b + 1
      invariant forall i :: 0 <= i < |out| ==> EmittedAt(out, i, k0, rows, from, now, b)
      decreases now - ts
    {
      Reaches(k, now, b);
      var c := Get(buckets, ts, ZERO);
      MergedTells(rows, from, now, b, k, c);
      ghost var before := out;
      out := out + [Bucket(ts, c.criticalOpened, c.warningOpened, c.criticalResolved, c.warningResolved)];
      forall i | 0 <= i < |out|
        ensures EmittedAt(out, i, k0, rows, from, now, b)
      {
        assert i < |before| ==> EmittedAt(before, i, k0, rows, from, now, b);
      }
      NextMultiple(k, b);
      ts := ts + b;
      k := k + 1;
    }
    Reaches(k, now, b);
  }

  lemma NextMultiple(k: int, b: int)
    ensures (k + 1) * b == k * b + b
  {
  }

  function Cell(k: Bucket, kind: Kind, critical: bool): int {
    match kind
    case Opened => if critical then k.criticalOpened else k.warningOpened
    case Resolved => if critical then k.criticalResolved else k.warningResolved
  }

  function ColumnSum(out: seq<Bucket>, n: nat, kind: Kind, critical: bool): int
    requires n <= |out|
  {
    if n == 0 then 0 else ColumnSum(out, n - 1, kind, critical) + Cell(out[n - 1], kind, critical)
  }

  lemma {:induction false} ColumnIsGroups(out: seq<Bucket>, n: nat, kind: Kind, critical: bool, k0: int, rows: seq<Incident>, from: int, now: int, b: int)
    requires n <= |out| && 0 < b
    requires forall i :: 0 <= i < |out| ==> EmittedAt(out, i, k0, rows, from, now, b)
    ensures ColumnSum(out, n, kind, critical) ==
            SumOfGroups(rows, |rows|, kind, if critical then "critical" else "warning", from, now, b, k0, n)
  {
    if n > 0 {
      ColumnIsGroups(out, n - 1, kind, critical, k0, rows, from, now, b);
      assert EmittedAt(out, n - 1, k0, rows, from, now, b);
      GroupIsInterval(rows, |rows|, kind, if critical then "critical" else "warning", from, now, b, k0 + n - 1);
    }
  }

  /** Every selected incident of a severity is counted in exactly one emitted bucket: the
      column adds up to the number of them. */
  lemma CountsConserved(out: seq<Bucket>, kind: Kind, critical: bool, rows: seq<Incident>, from: int, now: int, b: int)
    requires 0 < b && from <= now && 0 <= now && Emitted(out, rows, from, now, b)
    ensures ColumnSum(out, |out|, kind, critical) ==
            CountIn(rows, |rows|, kind, if critical then "critical" else "warning", from, now, from, now)
  {
    ColumnIsGroups(out, |out|, kind, critical, Trunc(from, b), rows, from, now, b);
    NothingLost(rows, |rows|, kind, if critical then "critical" else "warning", from, now, b);
  }

  // ----- The answer, told on the incidents

  /** The incidents of a severity that started in [lo, hi]. */
  function OpenedIn(rows: seq<Incident>, n: nat, severity: string, lo: int, hi: int): set<nat>
    requires n <= |rows|
  {
    set i | 0 <= i < n && rows[i].severity == severity && lo <= rows[i].startedAt && rows[i].startedAt <= hi
  }

  /** Those that were resolved, in [lo, hi]. */
  function ResolvedIn(rows: seq<Incident>, n: nat, severity: string, lo: int, hi: int): set<nat>
    requires n <= |rows|
  {
    set i | 0 <= i < n && rows[i].severity == severity && 0 < rows[i].resolvedAt && lo <= rows[i].resolvedAt && rows[i].resolvedAt <= hi
  }

  function Later(a: int, b: int): int {
    if a < b then b else a
  }

  function Earlier(a: int, b: int): int {
    if a < b then a else b
  }

  lemma OpenedNext(rows: seq<Incident>, n: nat, severity: string, lo: int, hi: int)
    requires 0 < n <= |rows|
    ensures var r := rows[n - 1];
            |OpenedIn(rows, n, severity, lo, hi)| ==
            |OpenedIn(rows, n - 1, severity, lo, hi)| + if r.severity == severity && lo <= r.startedAt <= hi then 1 else 0
  {
    var r, before, after := rows[n - 1], OpenedIn(rows, n - 1, severity, lo, hi), OpenedIn(rows, n, severity, lo, hi);
    assert n - 1 !in before;
    if r.severity == severity && lo <= r.startedAt <= hi {
      assert after == before + {n - 1};
    } else {
      assert after == before;
    }
  }

  lemma {:induction false} OpenedMeans(rows: seq<Incident>, n: nat, severity: string, from: int, now: int, lo: int, hi: int)
    requires n <= |rows|
    ensures CountIn(rows, n, Opened, severity, from, now, lo, hi) == |OpenedIn(rows, n, severity, Later(from, lo), Earlier(now, hi))|
  {
    if n > 0 {
      OpenedMeans(rows, n - 1, severity, from, now, lo, hi);
      OpenedNext(rows, n, severity, Later(from, lo), Earlier(now, hi));
    } else {
      assert OpenedIn(rows, 0, severity, Later(from, lo), Earlier(now, hi)) == {};
    }
  }

  lemma ResolvedNext(rows: seq<Incident>, n: nat, severity: string, lo: int, hi: int)
    requires 0 < n <= |rows|
    ensures var r := rows[n - 1];
            |ResolvedIn(rows, n, severity, lo, hi)| ==
            |ResolvedIn(rows, n - 1, severity, lo, hi)| + if r.severity == severity && 0 < r.resolvedAt && lo <= r.resolvedAt <= hi then 1 else 0
  {
    var r, before, after := rows[n - 1], ResolvedIn(rows, n - 1, severity, lo, hi), ResolvedIn(rows, n, severity, lo, hi);
    assert n - 1 !in before;
    if r.severity == severity && 0 < r.resolvedAt && lo <= r.resolvedAt <= hi {
      assert after == before + {n - 1};
    } else {
      assert after == before;
    }
  }

  lemma {:induction false} ResolvedMeans(rows: seq<Incident>, n: nat, severity: string, from: int, now: int, lo: int, hi: int)
    requires n <= |rows|
    ensures CountIn(rows, n, Resolved, severity, from, now, lo, hi) == |ResolvedIn(rows, n, severity, Later(from, lo), Earlier(now, hi))|
  {
    if n > 0 {
      ResolvedMeans(rows, n - 1, severity, from, now, lo, hi);
      ResolvedNext(rows, n, severity, Later(from, lo), Earlier(now, hi));
    } else {
      assert ResolvedIn(rows, 0, severity, Later(from, lo), Earlier(now, hi)) == {};
    }
  }

  /** The bucket counts what was opened and resolved in the `width` seconds from its start that
      lie between `from` and `now`. */
  ghost predicate Tallies(out: Bucket, rows: seq<Incident>, from: int, now: int, width: int) {
    var lo, hi := Later(from, out.ts), Earlier(now, out.ts + width - 1);
    && out.criticalOpened == |OpenedIn(rows, |rows|, "critical", lo, hi)|
    && out.warningOpened == |OpenedIn(rows, |rows|, "warning", lo, hi)|
    && out.criticalResolved == |ResolvedIn(rows, |rows|, "critical", lo, hi)|
    && out.warningResolved == |ResolvedIn(rows, |rows|, "warning", lo, hi)|
  }

  lemma TellsCounts(out: Bucket, rows: seq<Incident>, from: int, now: int, b: int)
    requires 0 < b && 0 < out.ts && Tells(out, rows, from, now, b)
    ensures Tallies(out, rows, from, now, b)
  {
    var hi := out.ts + b - 1;
    OpenedMeans(rows, |rows|, "critical", from, now, out.ts, hi);
    OpenedMeans(rows, |rows|, "warning", from, now, out.ts, hi);
    ResolvedMeans(rows, |rows|, "critical", from, now, out.ts, hi);
    ResolvedMeans(rows, |rows|, "warning", from, now, out.ts, hi);
  }

  /** Adjacent buckets of `width` seconds up to the one of `now`; if the clock is past the
      window there are `n`. */
  ghost predicate Sparkline(out: seq<Bucket>, rows: seq<Incident>, now: int, window: int, width: int, n: nat) {
    && out != [] && out[|out| - 1].ts <= now < out[|out| - 1].ts + width
    && (forall i :: 0 <= i < |out| - 1 ==> out[i + 1].ts == out[i].ts + width)
    && (window <= now ==> |out| == n)
    && (forall i :: 0 <= i < |out| && 0 < out[i].ts ==> Tallies(out[i], rows, now - window, now, width))
  }

  lemma EmittedSparkles(out: seq<Bucket>, rows: seq<Incident>, now: int, window: int, b: int, n: nat, from: int, k0: int)
    requires 0 < b && 0 <= now && 0 < window && from == now - window && k0 == Trunc(from, b) && |out| == now / b - k0 + 1
    requires window <= now ==> |out| == n
    requires forall i :: 0 <= i < |out| ==> EmittedAt(out, i, k0, rows, from, now, b)
    ensures Sparkline(out, rows, now, window, b, n)
  {
    TruncMonotone(from, now, b);
    var last := |out| - 1;
    assert EmittedAt(out, last, k0, rows, from, now, b) && k0 + last == now / b;
    DivMeans(now, b, now / b);
    forall i | 0 <= i < last
      ensures out[i + 1].ts == out[i].ts + b
    {
      assert EmittedAt(out, i, k0, rows, from, now, b) && EmittedAt(out, i + 1, k0, rows, from, now, b);
      NextMultiple(k0 + i, b);
    }
    forall i | 0 <= i < |out| && 0 < out[i].ts
      ensures Tallies(out[i], rows, from, now, b)
    {
      assert EmittedAt(out, i, k0, rows, from, now, b);
      TellsCounts(out[i], rows, from, now, b);
    }
  }

  /** A day comes in 25 hours, thirty days in 31 days, any other range in 29 quarters of a day. */
  ghost predicate Answers(out: seq<Bucket>, rows: seq<Incident>, rangeKey: string, now: int) {
    match rangeKey
    case "24h" => Sparkline(out, rows, now, 86_400, 3_600, 25)
    case "30d" => Sparkline(out, rows, now, 2_592_000, 86_400, 31)
    case _ => Sparkline(out, rows, now, 604_800, 21_600, 29)
  }

  lemma EmittedAnswers(out: seq<Bucket>, rows: seq<Incident>, rangeKey: string, now: int, window: int, b: int)
    requires 0 <= now && RangeOf(rangeKey) == (window, b) && Emitted(out, rows, now - window, now, b)
    ensures Answers(out, rows, rangeKey, now)
  {
    Sparkles(out, rows, now, window, b, if rangeKey == "24h" then 24 else if rangeKey == "30d" then 30 else 28);
  }

  /** `rows` are the incidents visible to the user; `now` is a unix clock reading. */
  method GetIncidentStats(rows: seq<Incident>, rangeKey: string, now: int) returns (out: seq<Bucket>)
    requires 0 <= now
    ensures Answers(out, rows, rangeKey, now)
    ensures Emitted(out, rows, now - RangeOf(rangeKey).0, now, RangeOf(rangeKey).1)
  {
    var (window, b) := RangeOf(rangeKey);
    out := Collect(rows, now - window, now, b);
    EmittedAnswers(out, rows, rangeKey, now, window, b);
  }

  lemma Sparkles(out: seq<Bucket>, rows: seq<Incident>, now: int, window: int, b: int, m: nat)
    requires 0 < b && 0 <= now && 0 < window && window == m * b && Emitted(out, rows, now - window, now, b)
    ensures Sparkline(out, rows, now, window, b, m + 1)
  {
    var from := now - window;
    if window <= now {
      WholeBuckets(from, m, b);
    }
    EmittedSparkles(out, rows, now, window, b, m + 1, from, Trunc(from, b));
  }

  /** Query, merge and emit. */
  method Collect(rows: seq<Incident>, from: int, now: int, b: int) returns (out: seq<Bucket>)
    requires 0 < b && from <= now && 0 <= now
    ensures Emitted(out, rows, from, now, b)
  {
    var first := MergeOpened(Query(rows, Opened, from, now, b));
    var buckets := MergeResolved(first, Query(rows, Resolved, from, now, b));
    out := Materialize(buckets, from, now, b, rows);
  }

  lemma Reaches(k: int, now: int, b: int)
    requires 0 < b && 0 <= now
    ensures k * b <= now <==> k <= now / b
  {
    DivMeans(now, b, now / b);
    if k <= now / b {
      MulMonotone(k, now / b, b);
    } else {
      MulMonotone(now / b + 1, k, b);
      assert (now / b + 1) * b == now / b * b + b;
    }
  }

  lemma WholeBuckets(from: int, m: int, b: int)
    requires 0 < b && 0 <= from
    ensures (from + m * b) / b == from / b + m
  {
    DivMeans(from, b, from / b);
    DivMeans(from + m * b, b, from / b + m);
    assert (from / b + m) * b == from / b * b + m * b;
  }
}
