/** What becomes of webhook audit rows. The buffer has two drainers, the janitor and the manual
    retry of a delivery, so any number of drained batches can be under way at once: each is
    committed, put back by the janitor, or thrown away by a retry whose flush failed. */
module AuditBatches {

  datatype Delivery = Delivery(userId: int, incidentId: string, event: string, url: string, status: int, ok: bool, ts: int)

  const MAX_LEN := 1024

  datatype Fate = Flying | Committed | Gone

  /** A drained batch: its rows, by their positions among all recorded ones. */
  datatype Batch = Batch(rows: seq<int>, fate: Fate)

  /** Everything ever recorded, and where it went. `batches` is in the order of draining,
      `committed` lists the batches in the order of their commits, `persisted` their rows. */
  datatype World = World(
    cap: nat, recorded: seq<Delivery>, pending: seq<int>, batches: seq<Batch>,
    committed: seq<int>, persisted: seq<int>, dropped: nat)

  function Start(cap: nat): World {
    World(cap, [], [], [], [], [], 0)
  }

  datatype Op = Record(d: Delivery) | Drain | Commit(batch: nat) | Requeue(batch: nat) | Abandon(batch: nat)

  predicate InFlight(w: World, b: nat) {
    b < |w.batches| && w.batches[b].fate.Flying?
  }

  function Room(w: World): int {
    w.cap - |w.pending|
  }

  /** The newest rows of a batch that there is room for. */
  function Fitting(items: seq<int>, room: int): (kept: seq<int>)
    ensures |kept| <= |items| && kept == items[|items| - |kept|..]
    ensures |kept| == |items| <==> items == [] || |items| <= room
  {
    if room <= 0 then [] else if room < |items| then items[|items| - room..] else items
  }

  function Step(w: World, op: Op): World {
    match op
    case Record(d) =>
      if |w.pending| >= w.cap then w.(recorded := w.recorded + [d], dropped := w.dropped + 1)
      else w.(recorded := w.recorded + [d], pending := w.pending + [|w.recorded|])
    case Drain =>
      if w.pending == [] then w else w.(batches := w.batches + [Batch(w.pending, Flying)], pending := [])
    case Commit(b) =>
      if InFlight(w, b) then
        Ended(w, b, Committed).(committed := w.committed + [b], persisted := w.persisted + w.batches[b].rows)
      else w
    case Requeue(b) =>
      if InFlight(w, b) then
        var items := w.batches[b].rows;
        Ended(w, b, Gone).(pending := Fitting(items, Room(w)) + w.pending,
                           dropped := w.dropped + if Room(w) <= 0 then |items| else 0)
      else w
    case Abandon(b) =>
      if InFlight(w, b) then Ended(w, b, Gone) else w
  }

  function Ended(w: World, b: nat, fate: Fate): World
    requires b < |w.batches|
  {
    w.(batches := w.batches[b := Batch(w.batches[b].rows, fate)])
  }

  function Run(cap: nat, ops: seq<Op>, n: nat): World
    requires n <= |ops|
  {
    if n == 0 then Start(cap) else Step(Run(cap, ops, n - 1), ops[n - 1])
  }

  // ----- No row is duplicated, and how many are lost

  function FlyingRows(batches: seq<Batch>, n: nat): multiset<int>
    requires n <= |batches|
  {
    if n == 0 then multiset{}
    else FlyingRows(batches, n - 1) + if batches[n - 1].fate.Flying? then multiset(batches[n - 1].rows) else multiset{}
  }

  /** Every row that still exists: persisted, in flight or pending. */
  function Held(w: World): multiset<int> {
    multiset(w.persisted) + FlyingRows(w.batches, |w.batches|) + multiset(w.pending)
  }

  /** Only recorded rows are held, each at most once. */
  ghost predicate HeldOnce(w: World) {
    forall x :: Held(w)[x] <= if 0 <= x < |w.recorded| then 1 else 0
  }

  function FlyingCount(batches: seq<Batch>, n: nat): nat
    requires n <= |batches|
  {
    if n == 0 then 0 else FlyingCount(batches, n - 1) + if batches[n - 1].fate.Flying? then |batches[n - 1].rows| else 0
  }

  /** How many rows still exist. */
  function Existing(w: World): nat {
    |w.persisted| + FlyingCount(w.batches, |w.batches|) + |w.pending|
  }

  function Lost(w: World): int {
    |w.recorded| - Existing(w)
  }

  lemma {:induction false} CountIsSize(batches: seq<Batch>, n: nat)
    requires n <= |batches|
    ensures FlyingCount(batches, n) == |FlyingRows(batches, n)|
  {
    if n > 0 {
      CountIsSize(batches, n - 1);
    }
  }

  lemma ExistingIsHeld(w: World)
    ensures Existing(w) == |Held(w)|
  {
    CountIsSize(w.batches, |w.batches|);
  }

  /** Rows the operation loses without counting them. */
  function Uncounted(w: World, op: Op): nat {
    match op
    case Requeue(b) =>
      if InFlight(w, b) && 0 < Room(w) < |w.batches[b].rows| then |w.batches[b].rows| - Room(w) else 0
    case Abandon(b) => if InFlight(w, b) then |w.batches[b].rows| else 0
    case _ => 0
  }

  /** The guards of the two branches that lose rows silently are false. */
  ghost predicate CountsExactly(w: World, op: Op) {
    match op
    case Requeue(b) => InFlight(w, b) && 0 < Room(w) ==> |w.batches[b].rows| <= Room(w)
    case Abandon(b) => !InFlight(w, b)
    case _ => true
  }

  ghost predicate NoneEmpty(w: World) {
    forall b :: 0 <= b < |w.batches| ==> w.batches[b].rows != []
  }

  lemma {:induction false} FlyingPrefix(batches: seq<Batch>, more: seq<Batch>, n: nat)
    requires n <= |batches| && n <= |more| && forall b :: 0 <= b < n ==> more[b] == batches[b]
    ensures FlyingRows(more, n) == FlyingRows(batches, n) && FlyingCount(more, n) == FlyingCount(batches, n)
  {
    if n > 0 {
      FlyingPrefix(batches, more, n - 1);
    }
  }

  lemma {:induction false} FlyingEnds(batches: seq<Batch>, n: nat, b: nat, fate: Fate)
    requires b < n <= |batches| && batches[b].fate.Flying? && !fate.Flying?
    ensures FlyingRows(batches, n) ==
            FlyingRows(batches[b := Batch(batches[b].rows, fate)], n) + multiset(batches[b].rows)
    ensures FlyingCount(batches, n) == FlyingCount(batches[b := Batch(batches[b].rows, fate)], n) + |batches[b].rows|
  {
    var more := batches[b := Batch(batches[b].rows, fate)];
    if b == n - 1 {
      FlyingPrefix(batches, more, n - 1);
    } else {
      FlyingEnds(batches, n - 1, b, fate);
    }
  }

  /** What an operation does to the rows that exist. */
  function HeldAfter(w: World, op: Op): multiset<int> {
    match op
    case Record(_) => if |w.pending| >= w.cap then Held(w) else Held(w) + multiset{|w.recorded|}
    case Requeue(b) =>
      if InFlight(w, b) then
        var items := w.batches[b].rows;
        Held(w) - multiset(items[..|items| - |Fitting(items, Room(w))|])
      else Held(w)
    case Abandon(b) => if InFlight(w, b) then Held(w) - multiset(w.batches[b].rows) else Held(w)
    case _ => Held(w)
  }

  lemma EndedHeld(w: World, b: nat, fate: Fate)
    requires InFlight(w, b) && !fate.Flying?
    ensures Held(w) == Held(Ended(w, b, fate)) + multiset(w.batches[b].rows)
  {
    FlyingEnds(w.batches, |w.batches|, b, fate);
  }

  lemma DrainHeld(w: World)
    ensures Held(Step(w, Drain)) == Held(w)
  {
    FlyingPrefix(w.batches, w.batches + [Batch(w.pending, Flying)], |w.batches|);
  }

  lemma CommitHeld(w: World, b: nat)
    requires InFlight(w, b)
    ensures Held(Step(w, Commit(b))) == Held(w)
  {
    EndedHeld(w, b, Committed);
    assert multiset(w.persisted + w.batches[b].rows) == multiset(w.persisted) + multiset(w.batches[b].rows);
  }

  lemma RequeueHeld(w: World, b: nat)
    requires InFlight(w, b)
    ensures Held(Step(w, Requeue(b))) == HeldAfter(w, Requeue(b))
  {
    EndedHeld(w, b, Gone);
    var items := w.batches[b].rows;
    var kept := Fitting(items, Room(w));
    assert items == items[..|items| - |kept|] + kept;
    assert multiset(items) == multiset(items[..|items| - |kept|]) + multiset(kept);
    assert multiset(kept + w.pending) == multiset(kept) + multiset(w.pending);
  }

  lemma StepHeld(w: World, op: Op)
    ensures Held(Step(w, op)) == HeldAfter(w, op)
  {
    match op
    case Record(d) =>
    case Drain => DrainHeld(w);
    case Commit(b) =>
      if InFlight(w, b) {
        CommitHeld(w, b);
      }
    case Requeue(b) =>
      if InFlight(w, b) {
        RequeueHeld(w, b);
      }
    case Abandon(b) =>
      if InFlight(w, b) {
        EndedHeld(w, b, Gone);
      }
  }

  lemma StepKeepsOnce(w: World, op: Op)
    requires HeldOnce(w) && |w.pending| <= w.cap && NoneEmpty(w)
    ensures HeldOnce(Step(w, op)) && |Step(w, op).pending| <= w.cap && NoneEmpty(Step(w, op))
  {
    StepHeld(w, op);
  }

  /** What is lost beyond the dropped count grows by exactly the uncounted rows, and those
      are none exactly when the guards say so. */
  lemma StepLoses(w: World, op: Op)
    requires |w.pending| <= w.cap && NoneEmpty(w)
    ensures Lost(Step(w, op)) - Step(w, op).dropped == Lost(w) - w.dropped + Uncounted(w, op)
    ensures Uncounted(w, op) == 0 <==> CountsExactly(w, op)
  {
    match op
    case Record(d) =>
    case Drain => FlyingPrefix(w.batches, w.batches + [Batch(w.pending, Flying)], |w.batches|);
    case Commit(b) =>
      if InFlight(w, b) {
        FlyingEnds(w.batches, |w.batches|, b, Committed);
      }
    case Requeue(b) =>
      if InFlight(w, b) {
        FlyingEnds(w.batches, |w.batches|, b, Gone);
      }
    case Abandon(b) =>
      if InFlight(w, b) {
        FlyingEnds(w.batches, |w.batches|, b, Gone);
      }
  }

  ghost predicate CountsAt(cap: nat, ops: seq<Op>, k: nat)
    requires k < |ops|
  {
    CountsExactly(Run(cap, ops, k), ops[k])
  }

  ghost predicate Sound(w: World) {
    |w.pending| <= w.cap && HeldOnce(w) && NoneEmpty(w) && Lost(w) >= w.dropped
  }

  lemma StepKeepsSound(w: World, op: Op)
    requires Sound(w)
    ensures Sound(Step(w, op)) && Step(w, op).cap == w.cap
  {
    StepKeepsOnce(w, op);
    StepLoses(w, op);
  }

  /** In every run the buffer is bounded, no row is ever duplicated, and at least the dropped
      rows are lost. */
  lemma {:induction false} EveryRun(cap: nat, ops: seq<Op>, n: nat)
    requires n <= |ops|
    ensures Sound(Run(cap, ops, n)) && Run(cap, ops, n).cap == cap
  {
    if n > 0 {
      EveryRun(cap, ops, n - 1);
      StepKeepsSound(Run(cap, ops, n - 1), ops[n - 1]);
    }
  }

  function Silently(w: World): int {
    Lost(w) - w.dropped
  }

  lemma SilentlyNext(cap: nat, ops: seq<Op>, n: nat)
    requires n < |ops|
    ensures 0 <= Silently(Run(cap, ops, n)) <= Silently(Run(cap, ops, n + 1))
    ensures Silently(Run(cap, ops, n + 1)) == Silently(Run(cap, ops, n)) <==> CountsAt(cap, ops, n)
  {
    EveryRun(cap, ops, n);
    StepLoses(Run(cap, ops, n), ops[n]);
  }

  /** Exactly the dropped rows are lost if and only if no requeue was cut and no batch was
      abandoned. */
  lemma {:induction false} LossesCountedIff(cap: nat, ops: seq<Op>, n: nat)
    requires n <= |ops|
    ensures Silently(Run(cap, ops, n)) == 0 <==> forall k :: 0 <= k < n ==> CountsAt(cap, ops, k)
  {
    if n > 0 {
      LossesCountedIff(cap, ops, n - 1);
      SilentlyNext(cap, ops, n - 1);
    }
  }
}
