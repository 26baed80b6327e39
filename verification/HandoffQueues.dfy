/** The double-buffer queue as it runs (async_write.go, poll_sync_opt.go): two ring buffers
    swapped by assignment, the flag, the eventfd; and its two users. */
module HandoffQueues {
  import opened RingBuffers
  import opened HandoffRuns
  import opened PollSync

  /** Where the drain loop stands after `n` items of `batch`. */
  ghost predicate Drained<T>(q: Queues<T>, start: Queues<T>, n: nat) {
    && n <= |Batch(start)|
    && q == Queues(Batch(start)[n..], if start.readq == [] then [] else start.writeq, start.notified, start.counter)
  }

  lemma DrainedToOnRead<T>(q: Queues<T>, start: Queues<T>, n: nat, k: nat)
    requires Drained(q, start, n) && n <= k && (n == k || q.readq == [])
    ensures n == Taken(start, k)
    ensures HandoffRuns.OnRead(start, k) == if q.readq != [] then q else q.(notified := 0, counter := 0)
  {
  }

  class DoubleQueue<T> {
    var readq: RingBuffer<T>
    var writeq: RingBuffer<T>
    var notified: int
    var efd: nat

    ghost predicate Valid()
      reads this, readq, writeq, readq.buffer, writeq.buffer
    {
      readq != writeq && readq.buffer != writeq.buffer && readq.Valid() && writeq.Valid() && readq.size > 0 && writeq.size > 0
    }

    ghost function Repr(): set<object>
      reads this, readq, writeq
    {
      {this, readq, writeq, readq.buffer, writeq.buffer}
    }

    ghost function Abs(): Queues<T>
      requires Valid()
      reads this, readq, writeq, readq.buffer, writeq.buffer
    {
      Queues(readq.Contents(), writeq.Contents(), notified, efd)
    }

    constructor (initCap: nat, zero: T)
      requires initCap > 0
      ensures Valid() && Abs() == Queues([], [], 0, 0) && fresh(Repr())
    {
      readq := new RingBuffer<T>(initCap, zero);
      writeq := new RingBuffer<T>(initCap, zero);
      notified, efd := 0, 0;
    }

    /** One whole push; module `Handoff` takes it apart. */
    method Push(x: T)
      requires Valid()
      modifies Repr()
      ensures Valid() && fresh(Repr() - old(Repr()))
      ensures Abs() == HandoffRuns.Push(old(Abs()), x)
    {
      writeq.PushBack(x);
      if notified != 0 {
        return;
      }
      notified := 1;
      efd := efd + 1;
    }

    method SwapIfDrained()
      requires Valid()
      modifies this`readq, this`writeq
      ensures Valid() && Repr() == old(Repr()) && efd == old(efd)
      ensures Drained(Abs(), old(Abs()), 0)
    {
      var empty := readq.IsEmpty();
      if empty {
        writeq, readq := readq, writeq;
      }
      assert Batch(old(Abs()))[0..] == Batch(old(Abs()));
    }

    /** The next item of the batch that `OnRead` found at `start`, `n` items being done. */
    method TryPop(ghost start: Queues<T>, ghost n: nat) returns (x: T, ok: bool)
      requires Valid() && Drained(Abs(), start, n)
      modifies readq, readq.buffer
      ensures Valid() && Repr() == old(Repr()) && ok == (n < |Batch(start)|)
      ensures ok ==> x == Batch(start)[n] && Drained(Abs(), start, n + 1)
      ensures !ok ==> Drained(Abs(), start, n)
    {
      ghost var q := readq.Contents();
      x, ok := readq.PopFront();
      if ok {
        assert q[0] == x && q[1..] == readq.Contents();
      }
    }

    /** What `OnRead` does after its loop; the eventfd is readable, so the read succeeds. */
    method Finish(ghost start: Queues<T>, ghost n: nat, ghost k: nat)
      requires Valid() && efd > 0 && Drained(Abs(), start, n) && n <= k && (n == k || n == |Batch(start)|)
      modifies this`notified, this`efd
      ensures Valid() && Repr() == old(Repr())
      ensures Abs() == HandoffRuns.OnRead(start, k) && n == Taken(start, k)
    {
      DrainedToOnRead(Abs(), start, n, k);
      var empty := readq.IsEmpty();
      if !empty { // the eventfd stays readable for the rest of the batch
        return;
      }
      efd := 0;
      notified := 0;
    }
  }

  const ASYNC_WRITE_BATCH := 256
  const POLL_SYNC_BATCH := 8

  lemma TakeNext<T>(sofar: seq<T>, batch: seq<T>, n: nat)
    requires n < |batch|
    ensures sofar + batch[..n] + [batch[n]] == sofar + batch[..n + 1]
    ensures batch[..n + 1] == batch[..n] + [batch[n]]
  {
  }

  /** asyncWrite; what is handed to the handlers is kept in `delivered`. */
  class AsyncWrite<T> {
    const queue: DoubleQueue<T>
    ghost var delivered: seq<T>

    constructor (zero: T)
      ensures queue.Valid() && queue.Abs() == Queues([], [], 0, 0) && delivered == []
    {
      queue := new DoubleQueue<T>(ASYNC_WRITE_BATCH, zero);
      delivered := [];
    }

    /** One round of the loop: the next item of the batch goes to its handler. */
    method DeliverOne(ghost start: Queues<T>, ghost n: nat) returns (ok: bool)
      requires queue.Valid() && queue.efd > 0 && Drained(queue.Abs(), start, n)
      modifies this, queue.Repr()
      ensures queue.Valid() && queue.Repr() == old(queue.Repr()) && queue.efd > 0 && ok == (n < |Batch(start)|)
      ensures ok ==> Drained(queue.Abs(), start, n + 1) && delivered == old(delivered) + [Batch(start)[n]]
      ensures !ok ==> Drained(queue.Abs(), start, n) && delivered == old(delivered)
    {
      var item;
      item, ok := queue.TryPop(start, n);
      if ok {
        delivered := delivered + [item];
      }
    }

    method OnRead()
      requires queue.Valid() && queue.efd > 0
      modifies this, queue.Repr()
      ensures queue.Valid() && queue.Repr() == old(queue.Repr())
      ensures queue.Abs() == HandoffRuns.OnRead(old(queue.Abs()), 256)
      ensures delivered == old(delivered) + Batch(old(queue.Abs()))[..Taken(old(queue.Abs()), 256)]
    {
      ghost var start := queue.Abs();
      ghost var batch := Batch(start);
      queue.SwapIfDrained();
      var i := 0;
      while i < ASYNC_WRITE_BATCH
        invariant queue.Valid() && queue.Repr() == old(queue.Repr()) && 0 <= i <= ASYNC_WRITE_BATCH && queue.efd > 0
        invariant Drained(queue.Abs(), start, i)
        invariant i <= |batch| && delivered == old(delivered) + batch[..i]
      {
        var ok := DeliverOne(start, i);
        if !ok {
          break;
        }
        TakeNext(old(delivered), batch, i);
        i := i + 1;
      }
      queue.Finish(start, i, ASYNC_WRITE_BATCH);
    }
  }

  // ----- pollSyncOpt -----

  class PollSyncOpt<V> {
    const queue: DoubleQueue<SyncArg<V>>
    var pCache: map<int, V>

    constructor (zero: SyncArg<V>)
      ensures queue.Valid() && queue.Abs() == Queues([], [], 0, 0) && pCache == map[]
    {
      queue := new DoubleQueue<SyncArg<V>>(4, zero);
      pCache := map[];
    }

    /** One round of the loop: the next operation of the batch is applied to the cache. */
    method DoOne(ghost start: Queues<SyncArg<V>>, ghost n: nat) returns (ok: bool)
      requires queue.Valid() && queue.efd > 0 && Drained(queue.Abs(), start, n)
      modifies this, queue.Repr()
      ensures queue.Valid() && queue.Repr() == old(queue.Repr()) && queue.efd > 0 && ok == (n < |Batch(start)|)
      ensures ok ==> Drained(queue.Abs(), start, n + 1) && pCache == DoSync(old(pCache), Batch(start)[n])
      ensures !ok ==> Drained(queue.Abs(), start, n) && pCache == old(pCache)
    {
      var item;
      item, ok := queue.TryPop(start, n);
      if ok && item.typ == POLL_SYNC_CACHE {
        pCache := pCache[item.id := item.value];
      }
    }

    method OnRead()
      requires queue.Valid() && queue.efd > 0
      modifies this, queue.Repr()
      ensures queue.Valid() && queue.Repr() == old(queue.Repr())
      ensures queue.Abs() == HandoffRuns.OnRead(old(queue.Abs()), 8)
      ensures pCache == Fold(old(pCache), Batch(old(queue.Abs()))[..Taken(old(queue.Abs()), 8)])
    {
      ghost var start := queue.Abs();
      ghost var batch := Batch(start);
      queue.SwapIfDrained();
      var i := 0;
      while i < POLL_SYNC_BATCH
        invariant queue.Valid() && queue.Repr() == old(queue.Repr()) && 0 <= i <= POLL_SYNC_BATCH && queue.efd > 0
        invariant Drained(queue.Abs(), start, i)
        invariant i <= |batch| && pCache == Fold(old(pCache), batch[..i])
      {
        var ok := DoOne(start, i);
        if !ok {
          break;
        }
        TakeNext([], batch, i);
        FoldSnoc(old(pCache), batch[..i], batch[i]);
        i := i + 1;
      }
      queue.Finish(start, i, POLL_SYNC_BATCH);
    }
  }
}
