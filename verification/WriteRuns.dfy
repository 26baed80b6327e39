/** Whole runs of a handle's write path: conservation, the equivalence of waiting flag, queue
    and interest mask, and what makes the queue drain (or not). */
module WriteRuns {
  import opened Basics
  import Interest
  import opened WritePath

  datatype Op =
    | DoWrite(bf: seq<Byte>, rets: seq<Ret>)
    | DoOrdered(bf: seq<Byte>, rets: seq<Ret>)
    | DoFlush(rets: seq<Ret>)

  /** The buffer AsyncWrite makes of its argument (io_handle_async.go:75-84). */
  function Fresh(bf: seq<Byte>): AsyncBuf { AsyncBuf(0, |bf|, bf) }

  /** The bytes an operation hands to the handle. */
  function Input(op: Op): seq<Byte> {
    match op
    case DoWrite(bf, _) => bf
    case DoOrdered(bf, _) => bf
    case DoFlush(_) => []
  }

  ghost function Step(h: Handle, op: Op): Handle
    requires ValidQ(h.q)
  {
    match op
    case DoWrite(bf, rets) => Write(h, bf, rets).0
    case DoOrdered(bf, rets) => OrderedWrite(h, Fresh(bf), rets).0
    case DoFlush(rets) => Flush(h, rets).0
  }

  /** A handle just registered for reading. */
  function Registered(fd: int): Handle { Handle(fd, false, 0, [], Interest.EV_IN, []) }

  ghost function Accepted(ops: seq<Op>): seq<Byte> {
    if ops == [] then [] else Accepted(ops[..|ops| - 1]) + Input(ops[|ops| - 1])
  }

  // ----- The invariant of an open handle -----

  /** The waiting flag, a non-empty queue and EPOLLOUT in the stored mask are one and the same;
      EPOLLIN stays; the size counter is the number of unsent bytes. */
  ghost predicate Inv(h: Handle) {
    && Open(h)
    && ValidQ(h.q)
    && (h.waiting <==> h.q != [])
    && (Interest.Has(h.mask, Interest.EPOLLOUT) <==> h.waiting)
    && Interest.Has(h.mask, Interest.EPOLLIN)
    && h.size == |Pending(h.q)|
  }

  /** The part of the invariant that is not about the mask. */
  ghost predicate Counted(h: Handle) {
    ValidQ(h.q) && h.size == |Pending(h.q)|
  }

  lemma RegisteredInv(fd: int)
    requires fd >= 1
    ensures Inv(Registered(fd)) && Stream(Registered(fd)) == []
  {
    MaskOfFresh();
  }

  lemma MaskOfFresh()
    ensures Interest.Has(Interest.EV_IN, Interest.EPOLLIN) && !Interest.Has(Interest.EV_IN, Interest.EPOLLOUT)
  {
  }

  lemma WaitKeepsMask(h: Handle)
    requires Interest.Has(h.mask, Interest.EPOLLIN)
    requires Interest.Has(h.mask, Interest.EPOLLOUT) <==> h.waiting
    ensures var h' := WaitForOut(h);
            h'.waiting && Interest.Has(h'.mask, Interest.EPOLLIN) && Interest.Has(h'.mask, Interest.EPOLLOUT)
  {
    Interest.ReadingSurvives(h.mask);
  }

  lemma WriteKeepsInv(h: Handle, bf: seq<Byte>, rets: seq<Ret>)
    requires Inv(h)
    ensures Inv(Write(h, bf, rets).0)
  {
    WriteConserves(h, bf, rets);
    WaitKeepsMask(h);
    if h.q != [] {
      PendingSnoc(h.q, Fresh(bf));
    } else {
      var ret := AfterEintr(rets).0;
      var n := |Sent(bf, ret)|;
      if n < |bf| {
        PendingOne(AsyncBuf(0, |bf| - n, bf[n..]));
      }
    }
  }

  lemma OrderedWriteKeepsInv(h: Handle, bf: seq<Byte>, rets: seq<Ret>)
    requires Inv(h)
    ensures Inv(OrderedWrite(h, Fresh(bf), rets).0)
  {
    WaitKeepsMask(h);
    if h.q != [] {
      PendingSnoc(h.q, Fresh(bf));
    } else {
      BufferSplit(Fresh(bf), Next(rets));
    }
  }

  lemma TryFrontCounts(h: Handle, r: Ret)
    requires Counted(h) && h.q != []
    ensures Counted(TryFront(h, r))
    ensures TryFront(h, r).mask == h.mask && TryFront(h, r).waiting == h.waiting
  {
    TryFrontConserves(h, r);
    assert |Stream(TryFront(h, r))| == |Stream(h)|;
  }

  lemma {:induction false} FlushLoopCounts(h: Handle, n: nat, rets: seq<Ret>)
    requires Counted(h)
    ensures var (h', _) := FlushLoop(h, n, rets); Counted(h') && h'.mask == h.mask && h'.waiting == h.waiting
    decreases n
  {
    if n > 0 && h.q != [] {
      TryFrontCounts(h, Next(rets));
      if Done(h.q[0], Next(rets)) {
        FlushLoopCounts(TryFront(h, Next(rets)), n - 1, Rest(rets));
      }
    }
  }

  lemma FlushKeepsInv(h: Handle, rets: seq<Ret>)
    requires Inv(h)
    ensures Inv(Flush(h, rets).0)
  {
    FlushConserves(h, rets);
    FlushLoopCounts(h, |h.q|, rets);
    Interest.ReadingSurvives(h.mask);
  }

  lemma StepKeepsInv(h: Handle, op: Op)
    requires Inv(h)
    ensures Inv(Step(h, op)) && Stream(Step(h, op)) == Stream(h) + Input(op) && h.wire <= Step(h, op).wire
  {
    match op
    case DoWrite(bf, rets) =>
      WriteConserves(h, bf, rets);
      WriteKeepsInv(h, bf, rets);
    case DoOrdered(bf, rets) =>
      OrderedWriteConserves(h, Fresh(bf), rets);
      OrderedWriteKeepsInv(h, bf, rets);
      assert Fresh(bf).Left() == bf;
    case DoFlush(rets) =>
      FlushConserves(h, rets);
      FlushKeepsInv(h, rets);
  }

  /** The states of a run, one after each operation. */
  ghost predicate IsRun(trace: seq<Handle>, ops: seq<Op>) {
    && |trace| == |ops| + 1
    && (forall i :: 0 <= i < |ops| ==> ValidQ(trace[i].q) && trace[i + 1] == Step(trace[i], ops[i]))
  }

  /** Over every run of writes, ordered writes and flushes on an open handle, the bytes on the
      wire followed by the pending ones are all bytes accepted so far, in the order they came. */
  lemma {:induction false} NothingLostOrReordered(trace: seq<Handle>, ops: seq<Op>, fd: int, n: nat)
    requires IsRun(trace, ops) && fd >= 1 && trace[0] == Registered(fd) && n <= |ops|
    ensures Inv(trace[n])
    ensures trace[n].wire + Pending(trace[n].q) == Accepted(ops[..n])
    ensures n > 0 ==> trace[n - 1].wire <= trace[n].wire
  {
    if n == 0 {
      RegisteredInv(fd);
    } else {
      NothingLostOrReordered(trace, ops, fd, n - 1);
      assert trace[n] == Step(trace[n - 1], ops[n - 1]);
      StepKeepsInv(trace[n - 1], ops[n - 1]);
      assert ops[..n][..n - 1] == ops[..n - 1];
    }
  }

  // ----- EPOLLRDHUP -----

  /** A flush before step `n` has ended with an empty queue. */
  ghost predicate DrainedBefore(trace: seq<Handle>, ops: seq<Op>, n: nat)
    requires |trace| == |ops| + 1 && n <= |ops|
  {
    exists i :: 0 <= i < n && ops[i].DoFlush? && trace[i + 1].q == []
  }

  lemma DrainedGrows(trace: seq<Handle>, ops: seq<Op>, n: nat)
    requires |trace| == |ops| + 1 && n < |ops|
    ensures DrainedBefore(trace, ops, n + 1)
            <==> DrainedBefore(trace, ops, n) || (ops[n].DoFlush? && trace[n + 1].q == [])
  {
  }

  lemma WaitHasRdhup(h: Handle)
    ensures Interest.Has(WaitForOut(h).mask, Interest.EPOLLRDHUP) || h.waiting
    ensures !Interest.Has(Interest.Without(h.mask, Interest.EV_OUT), Interest.EPOLLRDHUP)
    ensures Interest.Has(Interest.EV_IN, Interest.EPOLLRDHUP)
  {
    Interest.RdhupIsShared(h.mask);
  }

  lemma StepRdhup(h: Handle, op: Op)
    requires Inv(h) && (h.waiting ==> Interest.Has(h.mask, Interest.EPOLLRDHUP))
    ensures var h' := Step(h, op);
            Interest.Has(h'.mask, Interest.EPOLLRDHUP)
            <==> h'.waiting || (Interest.Has(h.mask, Interest.EPOLLRDHUP) && !(op.DoFlush? && h'.q == []))
    ensures h.waiting && !(op.DoFlush? && Step(h, op).q == []) ==> Step(h, op).waiting
  {
    WaitHasRdhup(h);
    match op
    case DoWrite(bf, rets) =>
    case DoOrdered(bf, rets) =>
    case DoFlush(rets) =>
      FlushLoopCounts(h, |h.q|, rets);
      var h1 := FlushLoop(h, |h.q|, rets).0;
      assert h1.mask == h.mask && h1.waiting == h.waiting;
      if h1.q != [] {
        assert h.q != [];
      }
  }

  /** EvIn and EvOut share EPOLLRDHUP, so the peer's half-close is watched for exactly until the
      first flush that empties the queue, and after that only while the handle waits. */
  lemma {:induction false} RdhupIsLostIff(trace: seq<Handle>, ops: seq<Op>, fd: int, n: nat)
    requires IsRun(trace, ops) && fd >= 1 && trace[0] == Registered(fd) && n <= |ops|
    ensures Interest.Has(trace[n].mask, Interest.EPOLLRDHUP) <==> trace[n].waiting || !DrainedBefore(trace, ops, n)
  {
    if n == 0 {
      WaitHasRdhup(trace[0]);
    } else {
      RdhupIsLostIff(trace, ops, fd, n - 1);
      NothingLostOrReordered(trace, ops, fd, n - 1);
      StepRdhup(trace[n - 1], ops[n - 1]);
      DrainedGrows(trace, ops, n - 1);
    }
  }

  /** What is asked of the kernel: reading always; while waiting also writing and the half-close; the
      half-close besides until the first flush that empties the queue. */
  function MaskFor(waiting: bool, drained: bool): Interest.Mask {
    if waiting then Interest.EPOLLIN | Interest.EPOLLOUT | Interest.EPOLLRDHUP
    else if drained then Interest.EPOLLIN
    else Interest.EPOLLIN | Interest.EPOLLRDHUP
  }

  lemma MaskForSteps(drained: bool)
    ensures Interest.EV_IN == MaskFor(false, false)
    ensures Interest.With(MaskFor(false, drained), Interest.EV_OUT) == MaskFor(true, drained)
    ensures forall w: bool :: Interest.Without(MaskFor(w, drained), Interest.EV_OUT) == MaskFor(false, true)
  {
    forall w: bool ensures Interest.Without(MaskFor(w, drained), Interest.EV_OUT) == MaskFor(false, true) {
      assert w || !w;
    }
  }

  lemma StepMask(h: Handle, op: Op, drained: bool)
    requires Inv(h) && h.mask == MaskFor(h.waiting, drained)
    ensures var h' := Step(h, op); h'.mask == MaskFor(h'.waiting, drained || (op.DoFlush? && h'.q == []))
  {
    MaskForSteps(drained);
    match op
    case DoWrite(bf, rets) =>
    case DoOrdered(bf, rets) =>
    case DoFlush(rets) => FlushLoopCounts(h, |h.q|, rets);
  }

  lemma MaskForBits(waiting: bool, drained: bool)
    ensures MaskFor(waiting, drained) & !(Interest.EPOLLIN | Interest.EPOLLOUT | Interest.EPOLLRDHUP) == 0
    ensures !Interest.Has(MaskFor(waiting, drained), Interest.EPOLLET)
  {
  }

  /** Over every run the mask is exactly that: no other bit is ever set, in particular never
      EPOLLET. */
  lemma {:induction false} MaskIs(trace: seq<Handle>, ops: seq<Op>, fd: int, n: nat)
    requires IsRun(trace, ops) && fd >= 1 && trace[0] == Registered(fd) && n <= |ops|
    ensures trace[n].mask
            == if trace[n].waiting then Interest.EPOLLIN | Interest.EPOLLOUT | Interest.EPOLLRDHUP
               else if DrainedBefore(trace, ops, n) then Interest.EPOLLIN
               else Interest.EPOLLIN | Interest.EPOLLRDHUP
    ensures trace[n].mask & !(Interest.EPOLLIN | Interest.EPOLLOUT | Interest.EPOLLRDHUP) == 0
    ensures !Interest.Has(trace[n].mask, Interest.EPOLLET)
  {
    assert trace[n].mask == MaskFor(trace[n].waiting, DrainedBefore(trace, ops, n)) by {
      if n == 0 {
        MaskForSteps(false);
      } else {
        MaskIs(trace, ops, fd, n - 1);
        NothingLostOrReordered(trace, ops, fd, n - 1);
        StepMask(trace[n - 1], ops[n - 1], DrainedBefore(trace, ops, n - 1));
        DrainedGrows(trace, ops, n - 1);
      }
    }
    MaskForBits(trace[n].waiting, DrainedBefore(trace, ops, n));
  }

  /** A write that the kernel first declines and then takes: the interest in the half-close is gone. */
  lemma OneWaitLosesRdhup(fd: int, bf: seq<Byte>)
    requires fd >= 1 && bf != []
    ensures var h := Flush(Write(Registered(fd), bf, [Accept(0)]).0, [Accept(|bf|)]).0;
            h.wire == bf && h.q == [] && !Interest.Has(h.mask, Interest.EPOLLRDHUP)
  {
    var h1 := Write(Registered(fd), bf, [Accept(0)]).0;
    assert bf[0..] == bf && h1.q == [AsyncBuf(0, |bf|, bf)];
    assert h1.q[0].Left() == bf && Sent(bf, Accept(|bf|)) == bf;
    assert TryFront(h1, Accept(|bf|)).q == [];
    assert [] + bf == bf;
    WaitHasRdhup(h1);
  }

  // ----- Progress -----

  /** A flush takes off the counter exactly what it puts on the wire. */
  lemma FlushDecreases(h: Handle, rets: seq<Ret>)
    requires Inv(h)
    ensures var h' := Flush(h, rets).0; h'.size == h.size - (|h'.wire| - |h.wire|) && |h'.wire| >= |h.wire|
  {
    FlushConserves(h, rets);
    FlushKeepsInv(h, rets);
    assert |Stream(Flush(h, rets).0)| == |Stream(h)|;
  }

  /** A flush sends something exactly when the front buffer has bytes left and the kernel takes one. */
  lemma FlushSendsIff(h: Handle, rets: seq<Ret>)
    requires Inv(h) && h.q != []
    ensures Flush(h, rets).0.wire != h.wire
            <==> (h.q[0].Left() != [] && Next(rets).Accept? && Next(rets).n > 0)
  {
    var h1 := TryFront(h, Next(rets));
    if Done(h.q[0], Next(rets)) {
      FlushLoopConserves(h1, |h.q| - 1, Rest(rets));
      assert |h1.wire| > |h.wire|;
    }
  }

  /** The kernel takes every buffer of the queue whole. */
  ghost predicate TakesAll(rets: seq<Ret>, q: seq<AsyncBuf>)
    requires ValidQ(q)
  {
    |rets| >= |q| && forall i :: 0 <= i < |q| ==> rets[i].Accept? && rets[i].n >= |q[i].Left()|
  }

  ghost predicate NoneEmpty(q: seq<AsyncBuf>)
    requires ValidQ(q)
  {
    forall i :: 0 <= i < |q| ==> q[i].Left() != []
  }

  lemma {:induction false} FlushLoopDrainsIff(h: Handle, rets: seq<Ret>)
    requires ValidQ(h.q) && TakesAll(rets, h.q)
    ensures FlushLoop(h, |h.q|, rets).0.q == [] <==> NoneEmpty(h.q)
    decreases |h.q|
  {
    if h.q != [] {
      var b := h.q[0];
      assert rets[0].Accept? && rets[0].n >= |b.Left()|;
      if b.Left() != [] {
        assert Sent(b.Left(), rets[0]) == b.Left();
        var h1 := TryFront(h, rets[0]);
        assert h1.q == h.q[1..];
        forall i | 0 <= i < |h1.q| ensures rets[1..][i].Accept? && rets[1..][i].n >= |h1.q[i].Left()| {
          assert h1.q[i] == h.q[i + 1] && rets[1..][i] == rets[i + 1];
        }
        FlushLoopDrainsIff(h1, rets[1..]);
        assert NoneEmpty(h1.q) <==> NoneEmpty(h.q) by {
          assert forall i :: 1 <= i < |h.q| ==> h.q[i] == h1.q[i - 1];
        }
      }
    }
  }

  /** Given a kernel that takes everything, a flush empties the queue exactly when no queued
      buffer is empty. */
  lemma FlushDrainsIff(h: Handle, rets: seq<Ret>)
    requires Inv(h) && TakesAll(rets, h.q)
    ensures Flush(h, rets).0.q == [] <==> NoneEmpty(h.q)
  {
    FlushLoopDrainsIff(h, rets);
  }

  // ----- Zero-length buffers -----

  /** A buffer with nothing left to send stands at the front. */
  ghost predicate Blocked(h: Handle) {
    ValidQ(h.q) && h.q != [] && h.q[0].Left() == []
  }

  lemma StepBlocked(h: Handle, op: Op)
    requires Inv(h) && Blocked(h)
    ensures Blocked(Step(h, op)) && Step(h, op).wire == h.wire
  {
    match op
    case DoWrite(bf, rets) =>
    case DoOrdered(bf, rets) =>
    case DoFlush(rets) =>
      var h1 := TryFront(h, Next(rets));
      assert h1.q[0] == Advance(h.q[0], 0);
      assert FlushLoop(h, |h.q|, rets) == (h1, Rest(rets));
  }

  /** Once an empty buffer has reached the front, nothing is ever sent again, whatever the
      handler does and however willing the kernel is. */
  lemma {:induction false} EmptyBufferBlocksForever(trace: seq<Handle>, ops: seq<Op>, n: nat)
    requires IsRun(trace, ops) && Inv(trace[0]) && Blocked(trace[0]) && n <= |ops|
    ensures Inv(trace[n]) && Blocked(trace[n]) && trace[n].wire == trace[0].wire
  {
    if n > 0 {
      EmptyBufferBlocksForever(trace, ops, n - 1);
      assert trace[n] == Step(trace[n - 1], ops[n - 1]);
      StepKeepsInv(trace[n - 1], ops[n - 1]);
      StepBlocked(trace[n - 1], ops[n - 1]);
    }
  }

  /** An asynchronous write of no bytes on an idle handle is enough. */
  lemma EmptyAsyncWriteBlocks(h: Handle, rets: seq<Ret>)
    requires Inv(h) && h.q == []
    ensures Blocked(OrderedWrite(h, Fresh([]), rets).0)
  {
  }

  /** The flush takes no empty buffer off, and leaves none of the others empty. */
  lemma {:induction false} FlushLoopNoneEmptyIff(h: Handle, n: nat, rets: seq<Ret>)
    requires ValidQ(h.q)
    ensures ValidQ(FlushLoop(h, n, rets).0.q)
    ensures NoneEmpty(FlushLoop(h, n, rets).0.q) <==> NoneEmpty(h.q)
    decreases n
  {
    if n > 0 && h.q != [] {
      TryFrontNoneEmptyIff(h, Next(rets));
      if Done(h.q[0], Next(rets)) {
        FlushLoopNoneEmptyIff(TryFront(h, Next(rets)), n - 1, Rest(rets));
      }
    }
  }

  lemma TryFrontNoneEmptyIff(h: Handle, r: Ret)
    requires ValidQ(h.q) && h.q != []
    ensures NoneEmpty(TryFront(h, r).q) <==> NoneEmpty(h.q)
  {
    var b, q := h.q[0], TryFront(h, r).q;
    BufferSplit(b, r);
    if Done(b, r) {
      assert forall i :: 0 <= i < |q| ==> q[i] == h.q[i + 1];
      assert forall i :: 1 <= i < |h.q| ==> h.q[i] == q[i - 1];
    } else {
      assert q[0].Left() == [] <==> b.Left() == [] by {
        assert |b.Left()| == |Sent(b.Left(), r)| + |q[0].Left()|;
      }
      assert forall i :: 1 <= i < |q| ==> q[i] == h.q[i];
    }
  }

  /** An empty buffer joins the queue: from an ordered write at once, from a write only behind others. */
  ghost predicate QueuesEmpty(h: Handle, op: Op) {
    Input(op) == [] && (op.DoOrdered? || (op.DoWrite? && h.q != []))
  }

  lemma AppendedNoneEmptyIff(q: seq<AsyncBuf>, b: AsyncBuf)
    requires ValidQ(q) && b.Valid()
    ensures ValidQ(q + [b]) && (NoneEmpty(q + [b]) <==> NoneEmpty(q) && b.Left() != [])
  {
    var r := q + [b];
    assert r[|q|] == b && forall i :: 0 <= i < |q| ==> r[i] == q[i];
  }

  lemma WriteNoneEmptyIff(h: Handle, bf: seq<Byte>, rets: seq<Ret>)
    requires Inv(h) && ValidQ(Write(h, bf, rets).0.q)
    ensures NoneEmpty(Write(h, bf, rets).0.q) <==> NoneEmpty(h.q) && !(bf == [] && h.q != [])
  {
    if h.q != [] {
      AppendedNoneEmptyIff(h.q, Fresh(bf));
    }
  }

  lemma OrderedNoneEmptyIff(h: Handle, bf: seq<Byte>, rets: seq<Ret>)
    requires Inv(h) && ValidQ(OrderedWrite(h, Fresh(bf), rets).0.q)
    ensures NoneEmpty(OrderedWrite(h, Fresh(bf), rets).0.q) <==> NoneEmpty(h.q) && bf != []
  {
    if h.q != [] {
      AppendedNoneEmptyIff(h.q, Fresh(bf));
    } else {
      BufferSplit(Fresh(bf), Next(rets));
    }
  }

  lemma StepNoneEmptyIff(h: Handle, op: Op)
    requires Inv(h)
    ensures ValidQ(Step(h, op).q)
    ensures NoneEmpty(Step(h, op).q) <==> NoneEmpty(h.q) && !QueuesEmpty(h, op)
  {
    StepKeepsInv(h, op);
    match op
    case DoWrite(bf, rets) => WriteNoneEmptyIff(h, bf, rets);
    case DoOrdered(bf, rets) => OrderedNoneEmptyIff(h, bf, rets);
    case DoFlush(rets) => FlushLoopNoneEmptyIff(h, |h.q|, rets);
  }

  /** Over every run, a kernel that takes everything empties the queue in one flush exactly when no
      empty buffer has ever joined it; all bytes accepted so far are then on the wire. */
  lemma {:induction false} RunDrainsIff(trace: seq<Handle>, ops: seq<Op>, fd: int, n: nat, rets: seq<Ret>)
    requires IsRun(trace, ops) && fd >= 1 && trace[0] == Registered(fd) && n <= |ops|
    ensures ValidQ(trace[n].q) && (NoneEmpty(trace[n].q) <==> forall i :: 0 <= i < n ==> !QueuesEmpty(trace[i], ops[i]))
    ensures TakesAll(rets, trace[n].q) ==>
              var h := Flush(trace[n], rets).0;
              && (h.q == [] <==> forall i :: 0 <= i < n ==> !QueuesEmpty(trace[i], ops[i]))
              && (h.q == [] ==> h.wire == Accepted(ops[..n]))
  {
    NothingLostOrReordered(trace, ops, fd, n);
    if n > 0 {
      RunDrainsIff(trace, ops, fd, n - 1, rets);
      NothingLostOrReordered(trace, ops, fd, n - 1);
      StepNoneEmptyIff(trace[n - 1], ops[n - 1]);
    }
    if TakesAll(rets, trace[n].q) {
      FlushDrainsIff(trace[n], rets);
      FlushConserves(trace[n], rets);
      assert Pending([]) == [];
    }
  }

  // ----- After the handle is closed -----

  /** After `Destroy` nothing moves any more: no operation of any run reaches the wire, the queue or
      the kernel's interest. */
  lemma {:induction false} ClosedHandleIsSilent(h: Handle, trace: seq<Handle>, ops: seq<Op>, n: nat)
    requires Inv(h) && IsRun(trace, ops) && trace[0] == Destroy(h) && n <= |ops|
    ensures trace[n].wire == h.wire && trace[n].mask == h.mask && trace[n].q == [] && trace[n].fd == -1
  {
    if n > 0 {
      ClosedHandleIsSilent(h, trace, ops, n - 1);
      assert trace[n] == Step(trace[n - 1], ops[n - 1]);
    }
  }

  /** The same object given to a new connection (`Init`, then registration with EvIn): neither
      touches the waiting flag or the counter. */
  function Reused(h: Handle, fd: int): Handle { h.(fd := fd, mask := Interest.EV_IN, wire := []) }

  /** Whatever came before, a handle used again starts in order exactly when at the time of `Destroy`
      its flag was down and its counter 0; for one that was in order itself, when nothing was
      pending.  What the hand-off still holds for it is the subject of `EndToEnd.ReuseSoundIff`. */
  lemma ReusedInOrderIff(h: Handle, fd: int)
    requires fd >= 1
    ensures Inv(Reused(Destroy(h), fd)) <==> !h.waiting && h.size == 0
    ensures Inv(h) ==> (!h.waiting && h.size == 0 <==> h.q == [])
  {
    MaskOfFresh();
  }

  /** A flag left up survives every further reuse, although nothing is pending any more. */
  lemma SecondReuseNotInOrder(h: Handle, fd: int, fd': int)
    requires Inv(h) && h.q != [] && fd >= 1 && fd' >= 1
    ensures var h1 := Reused(Destroy(h), fd);
            h1.q == [] && !Inv(h1) && !Inv(Reused(Destroy(h1), fd'))
  {
    ReusedInOrderIff(h, fd);
    ReusedInOrderIff(Reused(Destroy(h), fd), fd');
  }

  lemma StepStaysDeaf(h: Handle, op: Op)
    requires ValidQ(h.q) && Open(h) && h.waiting && !op.DoFlush?
    ensures var h' := Step(h, op);
            && h'.waiting && h'.mask == h.mask && Open(h') && ValidQ(h'.q)
            && (h.q != [] ==> h'.q != [] && h'.wire == h.wire)
  {
    match op
    case DoWrite(bf, rets) => WriteConserves(h, bf, rets);
    case DoOrdered(bf, rets) => OrderedWriteConserves(h, Fresh(bf), rets);
  }

  /** With the flag left up the new connection never asks for writability: over every run of writes
      EPOLLOUT stays out of the mask, and from the first byte that is queued on nothing is sent. */
  lemma {:induction false} ReusedHandleForgetsToWait(h: Handle, fd: int, trace: seq<Handle>, ops: seq<Op>, i: nat, n: nat)
    requires h.waiting && fd >= 1 && IsRun(trace, ops) && trace[0] == Reused(Destroy(h), fd) && i <= n <= |ops|
    requires forall j :: 0 <= j < |ops| ==> !ops[j].DoFlush?
    ensures trace[n].waiting && !Interest.Has(trace[n].mask, Interest.EPOLLOUT) && Open(trace[n]) && ValidQ(trace[n].q)
    ensures trace[n].mask == Interest.EV_IN
    ensures trace[i].q != [] ==> trace[n].q != [] && trace[n].wire == trace[i].wire
    decreases n
  {
    MaskOfFresh();
    if n > 0 {
      ReusedHandleForgetsToWait(h, fd, trace, ops, if i < n then i else n - 1, n - 1);
      StepStaysDeaf(trace[n - 1], ops[n - 1]);
    }
  }

  /** One short write is enough to stall it. */
  lemma ReusedHandleStalls(h: Handle, fd: int, trace: seq<Handle>, ops: seq<Op>, n: nat)
    requires h.waiting && fd >= 1 && IsRun(trace, ops) && trace[0] == Reused(Destroy(h), fd) && 1 <= n <= |ops|
    requires forall j :: 0 <= j < |ops| ==> !ops[j].DoFlush?
    requires ops[0].DoWrite? && |Sent(ops[0].bf, AfterEintr(ops[0].rets).0)| < |ops[0].bf|
    ensures trace[n].q != [] && trace[n].wire == trace[1].wire && !Interest.Has(trace[n].mask, Interest.EPOLLOUT)
  {
    assert trace[1] == Step(trace[0], ops[0]);
    ReusedHandleForgetsToWait(h, fd, trace, ops, 1, n);
  }
}
