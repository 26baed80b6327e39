/** The handle as it runs (io_handle.go, io_handle_async.go): its fields, and the loops of
    `Write`, `AsyncOrderedFlush` and `Destroy` over a ring buffer. */
module IOHandles {
  import opened Basics
  import Interest
  import opened RingBuffers
  import opened WritePath

  class IOHandle {
    var asyncWriteWaiting: bool
    var fd: int
    var asyncWriteBufSize: int
    var asyncWriteBufQ: RingBuffer?<AsyncBuf>
    /** The mask evPoll stores for `fd`. */
    var interest: Interest.Mask
    ghost var wire: seq<Byte>
    /** How often OnWriteBufferDrained was called. */
    ghost var drained: nat

    ghost function Repr(): set<object?>
      reads this, asyncWriteBufQ
    {
      if asyncWriteBufQ == null then {this} else {this, asyncWriteBufQ, asyncWriteBufQ.buffer}
    }

    ghost predicate Valid()
      reads this, asyncWriteBufQ, if asyncWriteBufQ == null then {} else {asyncWriteBufQ.buffer}
    {
      asyncWriteBufQ != null ==> asyncWriteBufQ.Valid() && asyncWriteBufQ.size > 0 && ValidQ(asyncWriteBufQ.Contents())
    }

    ghost function Queue(): (q: seq<AsyncBuf>)
      requires Valid()
      reads this, asyncWriteBufQ, if asyncWriteBufQ == null then {} else {asyncWriteBufQ.buffer}
      ensures ValidQ(q)
    {
      if asyncWriteBufQ == null then [] else asyncWriteBufQ.Contents()
    }

    ghost function Abs(): Handle
      requires Valid()
      reads this, asyncWriteBufQ, if asyncWriteBufQ == null then {} else {asyncWriteBufQ.buffer}
    {
      Handle(fd, asyncWriteWaiting, asyncWriteBufSize, Queue(), interest, wire)
    }

    /** A fresh handle, registered with EvIn. */
    constructor (fd: int)
      ensures Valid() && Abs() == Handle(fd, false, 0, [], Interest.EV_IN, []) && fresh(Repr())
    {
      asyncWriteWaiting, this.fd, asyncWriteBufSize, asyncWriteBufQ := false, fd, 0, null;
      interest, wire, drained := Interest.EV_IN, [], 0;
    }

    method SysWrite(data: seq<Byte>, ret: Ret) returns (n: int)
      modifies this`wire
      ensures n == Written(ret, |data|) && wire == old(wire) + Sent(data, ret)
    {
      wire := wire + Sent(data, ret);
      n := Written(ret, |data|);
    }

    /** The test at the head of every write: is there something to queue behind? */
    method HasPending() returns (r: bool)
      requires Valid()
      ensures r <==> Queue() != []
    {
      if asyncWriteBufQ == null {
        return false;
      }
      var empty := asyncWriteBufQ.IsEmpty();
      return !empty;
    }

    /** Queues a buffer, in a new queue of capacity `initCap` if there is none. */
    method Enqueue(abf: AsyncBuf, initCap: nat)
      requires Valid() && abf.Valid() && initCap > 0
      modifies Repr()
      ensures Valid() && fresh(Repr() - old(Repr()))
      ensures Abs() == old(Abs()).(q := old(Queue()) + [abf]) && drained == old(drained)
    {
      if asyncWriteBufQ == null {
        asyncWriteBufQ := new RingBuffer<AsyncBuf>(initCap, AsyncBuf(0, 0, []));
      }
      asyncWriteBufQ.PushBack(abf);
    }

    method WaitForOut()
      requires Valid()
      modifies this`asyncWriteWaiting, this`interest
      ensures Valid() && Abs() == WritePath.WaitForOut(old(Abs()))
    {
      if !asyncWriteWaiting {
        asyncWriteWaiting := true;
        interest := Interest.With(interest, Interest.EV_OUT);
      }
    }

    /** A buffer the kernel did not take whole starts the queue, and the wait for writability. */
    method QueueRest(abf: AsyncBuf, initCap: nat, count: nat)
      requires Valid() && abf.Valid() && initCap > 0 && Queue() == []
      modifies Repr()
      ensures Valid() && fresh(Repr() - old(Repr())) && drained == old(drained)
      ensures Abs() == WritePath.WaitForOut(old(Abs()).(q := [abf], size := old(asyncWriteBufSize) + count))
    {
      Enqueue(abf, initCap);
      asyncWriteBufSize := asyncWriteBufSize + count;
      WaitForOut();
    }

    method Write(bf: seq<Byte>, rets: seq<Ret>) returns (n: int, err: Error, rest: seq<Ret>)
      requires Valid()
      modifies Repr()
      ensures Valid() && fresh(Repr() - old(Repr()))
      ensures var (h, n', e, r) := WritePath.Write(old(Abs()), bf, rets); Abs() == h && n == n' && err == e && rest == r
    {
      rest := rets;
      if fd < 1 {
        return 0, EBADF, rest;
      }
      var pending := HasPending();
      if pending {
        Enqueue(AsyncBuf(0, |bf|, bf), 2);
        asyncWriteBufSize := asyncWriteBufSize + |bf|;
        return |bf|, NoError, rest;
      }
      err, rest := WriteNow(bf, rets);
      n := |bf|;
    }

    /** The write with an empty queue; what the kernel does not take is queued. */
    method WriteNow(bf: seq<Byte>, rets: seq<Ret>) returns (err: Error, rest: seq<Ret>)
      requires Valid() && Queue() == []
      modifies Repr()
      ensures Valid() && fresh(Repr() - old(Repr()))
      ensures Abs() == WriteOut(old(Abs()), bf, AfterEintr(rets).0)
      ensures rest == AfterEintr(rets).1 && err == if AfterEintr(rets).0 == Fail then EWRITE else NoError
    {
      var n;
      ghost var ret;
      n, err, ret, rest := WriteRetrying(bf, rets);
      if n < |bf| {
        QueueRest(AsyncBuf(0, |bf| - n, bf[n..]), 2, |bf| - n);
      }
    }

    /** The loop around write(2): an interrupted call is repeated. */
    method WriteRetrying(bf: seq<Byte>, rets: seq<Ret>) returns (n: nat, err: Error, ghost ret: Ret, rest: seq<Ret>)
      modifies this`wire
      ensures (ret, rest) == AfterEintr(rets)
      ensures n == |Sent(bf, ret)| && err == (if ret == Fail then EWRITE else NoError) && wire == old(wire) + Sent(bf, ret)
    {
      rest := rets;
      while true
        invariant AfterEintr(rest) == AfterEintr(rets) && wire == old(wire)
        decreases |rest|
      {
        var answer := Next(rest);
        var m := SysWrite(bf, answer);
        ghost var left := rest;
        rest := Rest(rest);
        err := NoError;
        if m < 0 {
          if answer == Eintr {
            assert Sent(bf, answer) == [] && left != [];
            continue;
          }
          err := EWRITE;
          m := 0;
        }
        ret := answer;
        return m, err, ret, rest;
      }
    }

    /** One write(2) of what is left of a buffer, and the bookkeeping that both asynchronous
        paths do after it. */
    method Attempt(abf: AsyncBuf, ret: Ret) returns (left: AsyncBuf, done: bool)
      requires Valid() && abf.Valid()
      modifies this`wire, this`asyncWriteBufSize
      ensures Valid() && Abs() == Push(old(Abs()), abf, ret)
      ensures left == Advance(abf, |Sent(abf.Left(), ret)|) && done == Done(abf, ret)
    {
      left := abf;
      var n := SysWrite(abf.buf[abf.writen..abf.len], ret);
      if n > 0 {
        asyncWriteBufSize := asyncWriteBufSize - n;
        left := abf.(writen := abf.writen + n);
        if n == abf.len - abf.writen {
          return left, true;
        }
      }
      return left, false;
    }

    method OrderedWrite(abf: AsyncBuf, rets: seq<Ret>) returns (rest: seq<Ret>)
      requires Valid() && abf.Valid()
      modifies Repr()
      ensures Valid() && fresh(Repr() - old(Repr()))
      ensures (Abs(), rest) == WritePath.OrderedWrite(old(Abs()), abf, rets)
    {
      rest := rets;
      if fd < 1 {
        return;
      }
      asyncWriteBufSize := asyncWriteBufSize + abf.len;
      var pending := HasPending();
      if pending {
        Enqueue(abf, 4);
        return;
      }
      rest := Rest(rets);
      OrderedNow(abf, Next(rets));
    }

    /** The ordered write with an empty queue. */
    method OrderedNow(abf: AsyncBuf, ret: Ret)
      requires Valid() && abf.Valid() && Queue() == []
      modifies Repr()
      ensures Valid() && fresh(Repr() - old(Repr()))
      ensures var h1 := Push(old(Abs()), abf, ret);
              Abs() == if Done(abf, ret) then h1 else WritePath.WaitForOut(h1.(q := [Advance(abf, |Sent(abf.Left(), ret)|)]))
    {
      var left, done := Attempt(abf, ret);
      if !done {
        QueueRest(left, 4, 0);
      }
    }

    method TakeFront() returns (abf: AsyncBuf)
      requires Valid() && Queue() != []
      modifies Repr()
      ensures Valid() && Repr() == old(Repr()) && asyncWriteBufQ == old(asyncWriteBufQ) && drained == old(drained)
      ensures abf == old(Queue())[0] && abf.Valid() && Abs() == old(Abs()).(q := old(Queue())[1..])
    {
      ghost var q := Queue();
      var ok;
      abf, ok := asyncWriteBufQ.PopFront();
      assert q == [abf] + asyncWriteBufQ.Contents();
      assert abf == q[0] && asyncWriteBufQ.Contents() == q[1..];
    }

    method PutBack(abf: AsyncBuf)
      requires Valid() && abf.Valid() && asyncWriteBufQ != null
      modifies Repr()
      ensures Valid() && fresh(Repr() - old(Repr())) && asyncWriteBufQ == old(asyncWriteBufQ) && drained == old(drained)
      ensures Abs() == old(Abs()).(q := [abf] + old(Queue()))
    {
      asyncWriteBufQ.PushFront(abf);
    }

    /** One round of the flush loop; `done` when the front buffer was sent completely. */
    method FlushFront(ret: Ret) returns (done: bool)
      requires Valid() && Queue() != []
      modifies Repr()
      ensures Valid() && fresh(Repr() - old(Repr())) && asyncWriteBufQ == old(asyncWriteBufQ)
      ensures Abs() == TryFront(old(Abs()), ret) && done == Done(old(Queue())[0], ret)
      ensures drained == old(drained)
    {
      var abf := TakeFront();
      abf, done := Attempt(abf, ret);
      if !done {
        PutBack(abf);
      }
    }

    /** Called when the descriptor is writable; in the source the queue exists by then. */
    method AsyncOrderedFlush(rets: seq<Ret>) returns (rest: seq<Ret>)
      requires Valid() && (fd >= 1 ==> asyncWriteBufQ != null)
      modifies Repr()
      ensures Valid() && fresh(Repr() - old(Repr()))
      ensures (Abs(), rest) == WritePath.Flush(old(Abs()), rets)
      ensures drained == if old(fd) >= 1 && Queue() == [] then old(drained) + 1 else old(drained)
    {
      rest := rets;
      if fd < 1 {
        return;
      }
      rest := FlushAll(rets);
      var empty := asyncWriteBufQ.IsEmpty();
      if empty {
        interest := Interest.Without(interest, Interest.EV_OUT);
        asyncWriteWaiting := false;
        drained := drained + 1;
      }
    }

    /** The loop of the flush: as many rounds as there were buffers, up to the first that is not
        sent completely. */
    method FlushAll(rets: seq<Ret>) returns (rest: seq<Ret>)
      requires Valid() && asyncWriteBufQ != null
      modifies Repr()
      ensures Valid() && fresh(Repr() - old(Repr())) && asyncWriteBufQ == old(asyncWriteBufQ) && drained == old(drained)
      ensures (Abs(), rest) == FlushLoop(old(Abs()), |old(Queue())|, rets)
    {
      rest := rets;
      ghost var h0 := Abs();
      var n := asyncWriteBufQ.len;
      var i := 0;
      var go := true;
      while go && i < n
        invariant Valid() && asyncWriteBufQ == old(asyncWriteBufQ) && fresh(Repr() - old(Repr()))
        invariant i <= n && drained == old(drained)
        invariant go ==> |Queue()| == n - i && FlushLoop(h0, n, rets) == FlushLoop(Abs(), n - i, rest)
        invariant !go ==> FlushLoop(h0, n, rets) == (Abs(), rest)
      {
        go := FlushFront(Next(rest));
        rest := Rest(rest);
        i := i + 1;
      }
    }

    method Destroy()
      requires Valid()
      modifies Repr()
      ensures Valid() && Abs() == WritePath.Destroy(old(Abs()))
      ensures fd == if old(fd) > 0 then -1 else old(fd)
      ensures fresh(Repr() - old(Repr()))
    {
      if fd > 0 {
        fd := -1;
      }
      if asyncWriteBufQ != null {
        while asyncWriteBufQ.len > 0
          invariant Valid() && asyncWriteBufQ == old(asyncWriteBufQ) && asyncWriteBufQ.buffer == old(asyncWriteBufQ.buffer)
          invariant asyncWriteWaiting == old(asyncWriteWaiting) && asyncWriteBufSize == old(asyncWriteBufSize)
          invariant interest == old(interest) && wire == old(wire) && fd == WritePath.Destroy(old(Abs())).fd
          decreases |Queue()|
        {
          ghost var q := Queue();
          var abf, ok := asyncWriteBufQ.PopFront();
          assert asyncWriteBufQ.Contents() == q[1..];
        }
      }
    }
  }
}
