/** The bounded audit buffer for webhook deliveries, with its two drainers. */
module WebhookRecorder {
  import opened AuditBatches

  /** The rows that stand at these positions. */
  ghost predicate Reads(rows: seq<Delivery>, at: seq<int>, recorded: seq<Delivery>) {
    |rows| == |at| && forall i :: 0 <= i < |at| ==> 0 <= at[i] < |recorded| && recorded[at[i]] == rows[i]
  }

  class WebhookRecorder {
    var records: seq<Delivery>
    const maxLen: nat
    var droppedTotal: nat
    var flushedTotal: nat

    ghost var world: World

    ghost predicate Valid()
      reads this
    {
      && world.cap == maxLen && world.dropped == droppedTotal
      && Sound(world)
      && Reads(records, world.pending, world.recorded)
      && forall b :: 0 <= b < |world.batches| ==> InRange(b)
    }

    ghost predicate InRange(b: nat)
      requires b < |world.batches|
      reads this
    {
      forall i :: 0 <= i < |world.batches[b].rows| ==> 0 <= world.batches[b].rows[i] < |world.recorded|
    }

    /** `items` is a drained batch whose end is still open. */
    ghost predicate Holds(items: seq<Delivery>, b: nat)
      reads this
    {
      InFlight(world, b) && Reads(items, world.batches[b].rows, world.recorded)
    }

    constructor ()
      ensures Valid() && maxLen == 1024 && records == [] && droppedTotal == flushedTotal == 0 && world == Start(MAX_LEN)
    {
      records, maxLen, droppedTotal, flushedTotal := [], MAX_LEN, 0, 0;
      world := Start(MAX_LEN);
    }

    method Record(d: Delivery)
      requires Valid()
      modifies this`records, this`droppedTotal, this`world
      ensures Valid() && world == Step(old(world), Op.Record(d))
      ensures |old(records)| < maxLen ==> records == old(records) + [d] && droppedTotal == old(droppedTotal)
      ensures |old(records)| == maxLen ==> records == old(records) && droppedTotal == old(droppedTotal) + 1
    {
      StepKeepsSound(world, Op.Record(d));
      ghost var was := world;
      if |records| >= maxLen {
        droppedTotal := droppedTotal + 1;
      } else {
        records := records + [d];
      }
      world := Step(world, Op.Record(d));
      forall b | 0 <= b < |world.batches|
        ensures InRange(b)
      {
        assert old(InRange(b));
      }
    }

    method Drain() returns (out: seq<Delivery>)
      requires Valid()
      modifies this`records, this`flushedTotal, this`world
      ensures Valid() && world == Step(old(world), Op.Drain)
      ensures out == old(records) && records == [] && flushedTotal == old(flushedTotal) + |out|
      ensures out != [] ==> Holds(out, |old(world.batches)|)
    {
      if |records| == 0 {
        return [];
      }
      StepKeepsSound(world, Op.Drain);
      out := records;
      records := [];
      flushedTotal := flushedTotal + |out|;
      world := Step(world, Op.Drain);
      forall b | 0 <= b < |world.batches|
        ensures InRange(b)
      {
        assert b < |old(world.batches)| ==> old(InRange(b));
      }
    }

    /** Put a drained batch back in front. If there is no room at all the whole batch is
        dropped and counted; if there is too little room its oldest rows are dropped and not
        counted. */
    method Requeue(items: seq<Delivery>, ghost b: nat)
      requires Valid() && Holds(items, b)
      modifies this`records, this`droppedTotal, this`world
      ensures Valid() && world == Step(old(world), Op.Requeue(b))
      ensures PutBack(items, old(records), records, droppedTotal - old(droppedTotal))
      ensures Silently(world) == Silently(old(world)) <==> |old(records)| == maxLen || |items| <= maxLen - |old(records)|
    {
      StepKeepsSound(world, Op.Requeue(b));
      StepLoses(world, Op.Requeue(b));
      assert InRange(b);
      Prepend(items);
      RequeueReads(world, b, items, old(records), records);
      world := Step(world, Op.Requeue(b));
      forall c | 0 <= c < |world.batches|
        ensures InRange(c)
      {
        assert old(InRange(c));
      }
    }

    /** The newest of the rows that fit stand in front; the others are counted only if none fits. */
    predicate PutBack(items: seq<Delivery>, before: seq<Delivery>, after: seq<Delivery>, counted: int) {
      var room := maxLen - |before|;
      var gone := if room < |items| then |items| - room else 0;
      0 <= gone <= |items| && after == items[gone..] + before && counted == if room == 0 then gone else 0
    }

    method Prepend(items: seq<Delivery>)
      requires |records| <= maxLen
      modifies this`records, this`droppedTotal
      ensures PutBack(items, old(records), records, droppedTotal - old(droppedTotal))
    {
      if |items| == 0 {
        return;
      }
      var room := maxLen - |records|;
      if room <= 0 {
        droppedTotal := droppedTotal + |items|;
        return;
      }
      var kept := items;
      if room < |kept| {
        kept := kept[|kept| - room..];
        droppedTotal := droppedTotal + (|kept| - room);
      }
      records := kept + records;
    }

    lemma RequeueReads(w: World, b: nat, items: seq<Delivery>, before: seq<Delivery>, after: seq<Delivery>)
      requires w.cap == maxLen && InFlight(w, b) && Reads(items, w.batches[b].rows, w.recorded) && |w.pending| <= maxLen
      requires Reads(before, w.pending, w.recorded) && exists counted :: PutBack(items, before, after, counted)
      ensures Reads(after, Step(w, Op.Requeue(b)).pending, w.recorded)
    {
    }

    /** The database took a batch. */
    ghost method Committed(b: nat)
      requires Valid()
      modifies this`world
      ensures Valid() && world == Step(old(world), Commit(b))
    {
      StepKeepsSound(world, Commit(b));
      world := Step(world, Commit(b));
      forall c | 0 <= c < |world.batches|
        ensures InRange(c)
      {
        assert old(InRange(c));
      }
    }

    /** A retry forgets its batch. */
    ghost method Abandoned(b: nat)
      requires Valid()
      modifies this`world
      ensures Valid() && world == Step(old(world), Abandon(b))
    {
      StepKeepsSound(world, Abandon(b));
      world := Step(world, Abandon(b));
      forall c | 0 <= c < |world.batches|
        ensures InRange(c)
      {
        assert old(InRange(c));
      }
    }

    method Pending() returns (n: nat)
      ensures n == |records|
    {
      n := |records|;
    }

    /** The janitor's flush, whatever other batches are in flight: `stored` says whether the
        transaction committed. */
    method FlushPass(stored: bool)
      requires Valid()
      modifies this
      ensures Valid() && world.recorded == old(world.recorded)
      ensures stored ==> world.persisted == old(world.persisted + world.pending) && records == []
      ensures !stored ==> world.persisted == old(world.persisted) && records == old(records)
      ensures droppedTotal == old(droppedTotal) && Lost(world) == Lost(old(world))
    {
      var n := Pending();
      if n == 0 {
        return;
      }
      ghost var b := |world.batches|;
      StepLoses(world, Op.Drain);
      var pending := Drain();
      if stored {
        StepLoses(world, Commit(b));
        Committed(b);
      } else {
        Requeue(pending, b);
      }
    }

    /** A manual retry's flush: what it drained is stored, or lost without being counted. */
    method FlushAfterRetry(stored: bool)
      requires Valid()
      modifies this
      ensures Valid() && world.recorded == old(world.recorded) && records == [] && droppedTotal == old(droppedTotal)
      ensures world.persisted == if stored then old(world.persisted + world.pending) else old(world.persisted)
      ensures Lost(world) == Lost(old(world)) + if stored then 0 else |old(records)|
    {
      ghost var b := |world.batches|;
      StepLoses(world, Op.Drain);
      var pending := Drain();
      if |pending| > 0 {
        StepLoses(world, if stored then Commit(b) else Abandon(b));
        if stored {
          Committed(b);
        } else {
          Abandoned(b);
        }
      }
    }
  }

  /** A full buffer drained, one new row, and a failed flush: a row is lost, none counted. */
  method OverflowIsNotCounted(d: Delivery) returns (r: WebhookRecorder)
    ensures r.Valid() && r.droppedTotal == 0 && Lost(r.world) > 0
  {
    r := new WebhookRecorder();
    for i := 0 to MAX_LEN
      invariant r.Valid() && fresh(r) && |r.records| == i && r.droppedTotal == 0 && r.maxLen == MAX_LEN
      invariant Lost(r.world) == 0
    {
      StepLoses(r.world, Record(d));
      r.Record(d);
    }
    StepLoses(r.world, Drain);
    var batch := r.Drain();
    ghost var b := |r.world.batches| - 1;
    StepLoses(r.world, Record(d));
    r.Record(d);
    StepLoses(r.world, Requeue(b));
    r.Requeue(batch, b);
  }
}
