/** In which order audit rows are persisted. */
module AuditOrder {
  import opened AuditBatches

  ghost predicate ClimbsAt(s: seq<int>, k: nat)
    requires k < |s|
  {
    forall i :: 0 <= i < k ==> s[i] < s[k]
  }

  /** Strictly increasing: of positions, rows in recording order. */
  ghost predicate Climbs(s: seq<int>) {
    forall k :: 0 <= k < |s| ==> ClimbsAt(s, k)
  }

  function Last(s: seq<int>): int
    requires s != []
  {
    s[|s| - 1]
  }

  /** Two increasing lists join into one exactly if the first ends below the second. */
  lemma ClimbsJoin(s: seq<int>, t: seq<int>)
    ensures Climbs(s + t) <==> Climbs(s) && Climbs(t) && (s != [] && t != [] ==> Last(s) < t[0])
  {
    var j := s + t;
    if Climbs(j) {
      forall k | 0 <= k < |s|
        ensures ClimbsAt(s, k)
      {
        assert ClimbsAt(j, k);
        forall i | 0 <= i < k
          ensures s[i] < s[k]
        {
          assert j[i] == s[i] && j[k] == s[k];
        }
      }
      forall k | 0 <= k < |t|
        ensures ClimbsAt(t, k)
      {
        assert ClimbsAt(j, |s| + k);
        forall i | 0 <= i < k
          ensures t[i] < t[k]
        {
          assert j[|s| + i] == t[i] && j[|s| + k] == t[k];
        }
      }
      if s != [] && t != [] {
        assert ClimbsAt(j, |s|) && j[|s| - 1] == Last(s) && j[|s|] == t[0];
      }
    } else if Climbs(s) && Climbs(t) && (s != [] && t != [] ==> Last(s) < t[0]) {
      forall k | 0 <= k < |j|
        ensures ClimbsAt(j, k)
      {
        if k < |s| {
          assert ClimbsAt(s, k);
        } else {
          assert ClimbsAt(t, k - |s|) && (0 < k - |s| ==> t[0] < t[k - |s|]);
          forall i | 0 <= i < k
            ensures j[i] < j[k]
          {
            if i < |s| - 1 {
              assert ClimbsAt(s, |s| - 1);
            }
          }
        }
      }
    }
  }

  /** A commit is timely if its batch is in order and begins after all that is persisted. */
  ghost predicate Timely(w: World, op: Op) {
    op.Commit? && InFlight(w, op.batch) ==>
      var rows := w.batches[op.batch].rows;
      Climbs(rows) && (w.persisted != [] && rows != [] ==> Last(w.persisted) < rows[0])
  }

  ghost predicate TimelyAt(cap: nat, ops: seq<Op>, k: nat)
    requires k < |ops|
  {
    Timely(Run(cap, ops, k), ops[k])
  }

  lemma StepOrder(w: World, op: Op)
    ensures Climbs(Step(w, op).persisted) <==> Climbs(w.persisted) && Timely(w, op)
  {
    if op.Commit? && InFlight(w, op.batch) {
      ClimbsJoin(w.persisted, w.batches[op.batch].rows);
    }
  }

  ghost predicate PersistsInOrder(cap: nat, ops: seq<Op>, n: nat)
    requires n <= |ops|
  {
    Climbs(Run(cap, ops, n).persisted)
  }

  lemma OrderNext(cap: nat, ops: seq<Op>, n: nat)
    requires n < |ops|
    ensures PersistsInOrder(cap, ops, n + 1) <==> PersistsInOrder(cap, ops, n) && TimelyAt(cap, ops, n)
  {
    StepOrder(Run(cap, ops, n), ops[n]);
  }

  /** Rows are persisted in recording order exactly if every commit is timely. */
  lemma {:induction false} OrderIffTimely(cap: nat, ops: seq<Op>, n: nat)
    requires n <= |ops|
    ensures PersistsInOrder(cap, ops, n) <==> forall k :: 0 <= k < n ==> TimelyAt(cap, ops, k)
  {
    if n > 0 {
      OrderIffTimely(cap, ops, n - 1);
      OrderNext(cap, ops, n - 1);
    }
  }

  predicate Live(w: World, b: nat) {
    b < |w.batches| && !w.batches[b].fate.Gone?
  }

  ghost predicate Below(s: seq<int>, t: seq<int>) {
    s != [] && t != [] ==> Last(s) < t[0]
  }

  /** A batch is put back although one drained after it is still in flight or committed. */
  ghost predicate Overtaken(w: World, op: Op) {
    op.Requeue? && InFlight(w, op.batch) && exists b :: op.batch < b && Live(w, b)
  }

  ghost predicate InPlace(w: World, b: nat)
    requires b < |w.batches|
  {
    Live(w, b) ==>
      var rows := w.batches[b].rows;
      rows != [] && Climbs(rows) && Below(rows, w.pending) && Last(rows) < |w.recorded| &&
      forall a :: 0 <= a < b && Live(w, a) ==> Below(w.batches[a].rows, rows)
  }

  function LastCommitted(w: World): seq<int>
    requires w.committed != []
  {
    var b := Last(w.committed);
    if 0 <= b < |w.batches| then w.batches[b].rows else []
  }

  /** Batches in flight or committed hold, in the order of draining, ever newer rows, and the
      pending rows are the newest. */
  ghost predicate Ranked(w: World) {
    && Climbs(w.pending) && (w.pending != [] ==> Last(w.pending) < |w.recorded|)
    && (forall b :: 0 <= b < |w.batches| ==> InPlace(w, b))
    && (forall i :: 0 <= i < |w.committed| ==> 0 <= w.committed[i] < |w.batches| && w.batches[w.committed[i]].fate.Committed?)
    && (w.persisted == [] <==> w.committed == [])
    && (w.committed != [] ==> LastCommitted(w) != [] && Last(w.persisted) == Last(LastCommitted(w)))
  }

  lemma ClimbsTail(s: seq<int>, d: nat)
    requires Climbs(s) && d < |s|
    ensures Climbs(s[d..]) && Last(s[d..]) == Last(s) && s[0] <= s[d..][0]
  {
    ClimbsJoin(s[..d], s[d..]);
    assert s == s[..d] + s[d..];
    assert ClimbsAt(s, d);
  }

  lemma RecordKeepsRanked(w: World, d: Delivery)
    requires Ranked(w)
    ensures Ranked(Step(w, Record(d)))
  {
    var v := Step(w, Record(d));
    ClimbsJoin(w.pending, [|w.recorded|]);
    forall b | 0 <= b < |v.batches|
      ensures InPlace(v, b)
    {
      assert InPlace(w, b);
    }
  }

  lemma DrainKeepsRanked(w: World)
    requires Ranked(w)
    ensures Ranked(Step(w, Drain))
  {
    var v := Step(w, Drain);
    forall b | 0 <= b < |v.batches|
      ensures InPlace(v, b)
    {
      if b < |w.batches| {
        assert InPlace(w, b);
      } else {
        forall a | 0 <= a < b && Live(v, a)
          ensures Below(v.batches[a].rows, v.batches[b].rows)
        {
          assert InPlace(w, a);
        }
      }
    }
  }

  lemma EndedKeepsRanked(w: World, b: nat, fate: Fate)
    requires Ranked(w) && InFlight(w, b) && !fate.Flying?
    ensures Ranked(Ended(w, b, fate))
  {
    var v := Ended(w, b, fate);
    forall c | 0 <= c < |v.batches|
      ensures InPlace(v, c)
    {
      assert InPlace(w, c);
      forall a | 0 <= a < c && Live(v, a) && Live(v, c)
        ensures Below(v.batches[a].rows, v.batches[c].rows)
      {
        assert Live(w, a);
      }
    }
  }

  lemma LiveIsOlder(w: World, b: nat, c: nat)
    requires InFlight(w, b) && !Overtaken(w, Requeue(b)) && Live(w, c)
    ensures c <= b
  {
  }

  /** What is below a batch and what follows it is below both when the batch is cut and put in front. */
  lemma BelowJoin(s: seq<int>, items: seq<int>, kept: seq<int>, rest: seq<int>)
    requires Climbs(items) && items != [] && |kept| <= |items| && kept == items[|items| - |kept|..]
    requires Below(s, items) && Below(s, rest)
    ensures Below(s, kept + rest)
  {
    if kept != [] {
      ClimbsTail(items, |items| - |kept|);
    }
  }

  lemma RequeuedInPlace(w: World, b: nat, c: nat)
    requires Ranked(w) && InFlight(w, b) && !Overtaken(w, Requeue(b)) && c < |w.batches| && Ranked(Ended(w, b, Gone))
    ensures InPlace(Step(w, Requeue(b)), c)
  {
    var v, items := Step(w, Requeue(b)), w.batches[b].rows;
    assert InPlace(w, b) && InPlace(Ended(w, b, Gone), c) && InPlace(w, c);
    if Live(v, c) {
      LiveIsOlder(w, b, c);
      BelowJoin(w.batches[c].rows, items, Fitting(items, Room(w)), w.pending);
    }
  }

  lemma RequeuedClimbs(w: World, b: nat)
    requires Ranked(w) && InFlight(w, b)
    ensures var v := Step(w, Requeue(b));
            Climbs(v.pending) && (v.pending != [] ==> Last(v.pending) < |v.recorded|)
  {
    var items := w.batches[b].rows;
    var kept := Fitting(items, Room(w));
    assert InPlace(w, b);
    if kept != [] {
      ClimbsTail(items, |items| - |kept|);
    }
    ClimbsJoin(kept, w.pending);
  }

  lemma CommitKeepsRanked(w: World, b: nat)
    requires Ranked(w) && InFlight(w, b)
    ensures Ranked(Step(w, Commit(b)))
    ensures Climbs(Step(w, Commit(b)).persisted) <==>
            Climbs(w.persisted) && (w.committed != [] ==> Last(w.committed) < b)
    ensures Climbs(Step(w, Commit(b)).committed) <==>
            Climbs(w.committed) && (w.committed != [] ==> Last(w.committed) < b)
  {
    var v, rows := Step(w, Commit(b)), w.batches[b].rows;
    EndedKeepsRanked(w, b, Committed);
    assert InPlace(w, b);
    forall c | 0 <= c < |v.batches|
      ensures InPlace(v, c)
    {
      assert InPlace(Ended(w, b, Committed), c);
    }
    ClimbsJoin(w.persisted, rows);
    ClimbsJoin(w.committed, [b]);
    if w.committed != [] {
      var last := Last(w.committed);
      assert InPlace(w, last) && last != b;
      if b < last {
        assert Below(rows, w.batches[last].rows);
        assert ClimbsAt(w.batches[last].rows, |w.batches[last].rows| - 1);
        assert rows[0] <= Last(rows) by {
          assert ClimbsAt(rows, |rows| - 1);
        }
      }
    }
  }

  lemma StepKeepsRanked(w: World, op: Op)
    requires Ranked(w) && !Overtaken(w, op)
    ensures Ranked(Step(w, op))
  {
    match op
    case Record(d) => RecordKeepsRanked(w, d);
    case Drain => DrainKeepsRanked(w);
    case Commit(b) =>
      if InFlight(w, b) {
        CommitKeepsRanked(w, b);
      }
    case Requeue(b) =>
      if InFlight(w, b) {
        EndedKeepsRanked(w, b, Gone);
        RequeuedClimbs(w, b);
        forall c | 0 <= c < |w.batches|
          ensures InPlace(Step(w, op), c)
        {
          RequeuedInPlace(w, b, c);
        }
      }
    case Abandon(b) =>
      if InFlight(w, b) {
        EndedKeepsRanked(w, b, Gone);
      }
  }

  ghost predicate OvertakenAt(cap: nat, ops: seq<Op>, k: nat)
    requires k < |ops|
  {
    Overtaken(Run(cap, ops, k), ops[k])
  }

  ghost predicate InDrainOrder(w: World) {
    Ranked(w) && (Climbs(w.persisted) <==> Climbs(w.committed))
  }

  lemma StepDrainOrder(w: World, op: Op)
    requires InDrainOrder(w) && !Overtaken(w, op)
    ensures InDrainOrder(Step(w, op))
  {
    StepKeepsRanked(w, op);
    if op.Commit? && InFlight(w, op.batch) {
      CommitKeepsRanked(w, op.batch);
    } else {
      assert Step(w, op).persisted == w.persisted && Step(w, op).committed == w.committed;
    }
  }

  lemma PendingFollows(w: World)
    requires InDrainOrder(w)
    ensures Climbs(w.persisted + w.pending) <==> Climbs(w.committed)
  {
    ClimbsJoin(w.persisted, w.pending);
    if w.committed != [] {
      assert InPlace(w, Last(w.committed));
    }
  }

  lemma {:induction false} RunDrainOrder(cap: nat, ops: seq<Op>, n: nat)
    requires n <= |ops| && forall k :: 0 <= k < n ==> !OvertakenAt(cap, ops, k)
    ensures InDrainOrder(Run(cap, ops, n))
  {
    if n > 0 {
      RunDrainOrder(cap, ops, n - 1);
      assert !OvertakenAt(cap, ops, n - 1);
      StepDrainOrder(Run(cap, ops, n - 1), ops[n - 1]);
    }
  }

  /** As long as no requeue is overtaken, the persisted rows are in recording order exactly if
      the batches commit in the order they were drained, and then the pending rows continue
      that order. */
  lemma DrainOrderIff(cap: nat, ops: seq<Op>, n: nat)
    requires n <= |ops| && forall k :: 0 <= k < n ==> !OvertakenAt(cap, ops, k)
    ensures var w := Run(cap, ops, n);
            (Climbs(w.persisted) <==> Climbs(w.committed)) && (Climbs(w.persisted + w.pending) <==> Climbs(w.committed))
  {
    RunDrainOrder(cap, ops, n);
    PendingFollows(Run(cap, ops, n));
  }

  /** A drainer drains only when no batch is in flight. */
  ghost predicate AloneAt(cap: nat, ops: seq<Op>, k: nat)
    requires k < |ops|
  {
    ops[k].Drain? ==> forall b :: !InFlight(Run(cap, ops, k), b)
  }

  /** Only the newest batch can be in flight, and the committed ones climb below it. */
  ghost predicate OneAtATime(w: World) {
    && Climbs(w.committed)
    && (forall b :: InFlight(w, b) ==> b == |w.batches| - 1)
    && (w.committed != [] ==> 0 <= Last(w.committed) < |w.batches| && !InFlight(w, Last(w.committed)))
  }

  lemma StepOneAtATime(w: World, op: Op)
    requires OneAtATime(w) && (op.Drain? ==> forall b :: !InFlight(w, b))
    ensures OneAtATime(Step(w, op)) && !Overtaken(w, op)
  {
    if op.Commit? && InFlight(w, op.batch) {
      ClimbsJoin(w.committed, [op.batch as int]);
    }
    var v := Step(w, op);
    forall b | InFlight(v, b)
      ensures b == |v.batches| - 1
    {
      assert InFlight(w, b) || op.Drain?;
    }
  }

  lemma {:induction false} OneDrainer(cap: nat, ops: seq<Op>, n: nat)
    requires n <= |ops| && forall k :: 0 <= k < n ==> AloneAt(cap, ops, k)
    ensures OneAtATime(Run(cap, ops, n)) && forall k :: 0 <= k < n ==> !OvertakenAt(cap, ops, k)
  {
    if n > 0 {
      OneDrainer(cap, ops, n - 1);
      assert AloneAt(cap, ops, n - 1);
      StepOneAtATime(Run(cap, ops, n - 1), ops[n - 1]);
    }
  }

  /** With a single drainer, which drains only when its last batch has ended, rows are always
      persisted in recording order, and pending rows follow them. */
  lemma OneDrainerInOrder(cap: nat, ops: seq<Op>, n: nat)
    requires n <= |ops| && forall k :: 0 <= k < n ==> AloneAt(cap, ops, k)
    ensures Climbs(Run(cap, ops, n).persisted + Run(cap, ops, n).pending)
  {
    OneDrainer(cap, ops, n);
    DrainOrderIff(cap, ops, n);
  }

  // ----- Runs in which it goes wrong

  /** The janitor has drained the first row, another drainer the second. */
  function TwoInFlight(cap: nat, d: Delivery, e: Delivery): World {
    World(cap, [d, e], [], [Batch([0], Flying), Batch([1], Flying)], [], [], 0)
  }

  lemma BothDrain(cap: nat, d: Delivery, e: Delivery, ops: seq<Op>)
    requires 0 < cap && [Record(d), Drain, Record(e), Drain] <= ops
    ensures Run(cap, ops, 4) == TwoInFlight(cap, d, e)
  {
    var w1 := Start(cap).(recorded := [d], pending := [0]);
    assert Run(cap, ops, 0) == Start(cap) && ops[0] == Record(d) && Run(cap, ops, 1) == w1;
    var w2 := w1.(pending := [], batches := [Batch([0], Flying)]);
    assert ops[1] == Drain && Step(w1, Drain) == w2 == Run(cap, ops, 2);
    var w3 := w2.(recorded := [d, e], pending := [1]);
    assert ops[2] == Record(e) && Step(w2, Record(e)) == w3 == Run(cap, ops, 3);
    assert ops[3] == Drain && Step(w3, Drain) == TwoInFlight(cap, d, e);
  }

  lemma NewerFirst(s: seq<int>)
    requires s == [1, 0]
    ensures !Climbs(s)
  {
    assert s[0] == 1 && s[1] == 0;
    assert !ClimbsAt(s, 1);
  }

  /** The janitor drains, a row is recorded, a retry drains and commits it, then the janitor
      commits: the newer row is persisted first. */
  lemma RetryOvertakesJanitor(cap: nat, d: Delivery, e: Delivery)
    requires 0 < cap
    ensures var w := Run(cap, [Record(d), Drain, Record(e), Drain, Commit(1), Commit(0)], 6);
            w.persisted == [1, 0] && !Climbs(w.persisted)
  {
    var ops := [Record(d), Drain, Record(e), Drain, Commit(1), Commit(0)];
    BothDrain(cap, d, e, ops);
    var w4 := TwoInFlight(cap, d, e);
    var w5 := Step(w4, Commit(1));
    assert ops[4] == Commit(1) && Run(cap, ops, 5) == w5 && w5.persisted == [1] && w5.batches[0] == Batch([0], Flying);
    var w6 := Step(w5, Commit(0));
    assert ops[5] == Commit(0) && Run(cap, ops, 6) == w6 && w6.persisted == [1, 0];
    NewerFirst(w6.persisted);
  }

  function OvertakenRun(d: Delivery, e: Delivery): seq<Op> {
    [Record(d), Drain, Record(e), Drain, Requeue(0), Commit(1), Drain, Commit(2)]
  }

  lemma PutBackTooLate(cap: nat, d: Delivery, e: Delivery)
    requires 0 < cap
    ensures Run(cap, OvertakenRun(d, e), 6) ==
            World(cap, [d, e], [0], [Batch([0], Gone), Batch([1], Committed)], [1], [1], 0)
  {
    var ops := OvertakenRun(d, e);
    BothDrain(cap, d, e, ops);
    var w4 := TwoInFlight(cap, d, e);
    assert w4.batches[0] == Batch([0], Flying) && Room(w4) == cap && Fitting([0], cap) == [0];
    var w5 := World(cap, [d, e], [0], [Batch([0], Gone), Batch([1], Flying)], [], [], 0);
    assert ops[4] == Requeue(0) && Step(w4, Requeue(0)) == w5 == Run(cap, ops, 5) by {
      assert [0] + w4.pending == [0];
    }
    assert ops[5] == Commit(1) && w5.batches[1] == Batch([1], Flying);
  }

  /** An overtaken requeue: the batches commit in the order they were drained, and still the
      newer row is persisted first. */
  lemma OvertakenRequeue(cap: nat, d: Delivery, e: Delivery)
    requires 0 < cap
    ensures var w := Run(cap, OvertakenRun(d, e), 8);
            w.persisted == [1, 0] && !Climbs(w.persisted) && w.committed == [1, 2] && Climbs(w.committed)
  {
    var ops := OvertakenRun(d, e);
    PutBackTooLate(cap, d, e);
    var w6 := Run(cap, ops, 6);
    var w7 := Step(w6, Drain);
    assert ops[6] == Drain && Run(cap, ops, 7) == w7 && w7.persisted == [1] && w7.committed == [1];
    assert |w7.batches| == 3 && w7.batches[2] == Batch([0], Flying);
    var w8 := Step(w7, Commit(2));
    assert ops[7] == Commit(2) && Run(cap, ops, 8) == w8 && w8.persisted == [1, 0] && w8.committed == [1, 2];
    NewerFirst(w8.persisted);
  }

  /** A retry whose flush fails throws its batch away: a row is lost, none counted. */
  lemma FailedRetryLosesBatch(cap: nat, d: Delivery)
    requires 0 < cap
    ensures var w := Run(cap, [Record(d), Drain, Abandon(0)], 3); Lost(w) == 1 && w.dropped == 0
  {
    var ops := [Record(d), Drain, Abandon(0)];
    var w1 := Start(cap).(recorded := [d], pending := [0]);
    assert Run(cap, ops, 0) == Start(cap) && Run(cap, ops, 1) == w1;
    var w2 := w1.(pending := [], batches := [Batch([0], Flying)]);
    assert Step(w1, Drain) == w2 == Run(cap, ops, 2);
    var w3 := w2.(batches := [Batch([0], Gone)]);
    assert Step(w2, Abandon(0)) == w3 == Run(cap, ops, 3);
    assert FlyingRows(w3.batches, 1) == FlyingRows(w3.batches, 0) == multiset{};
  }
}
