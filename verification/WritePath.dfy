/** The ordered write path of a handle, on values (io_handle.go:114-179,
    io_handle_async.go:19-121): synchronous writes, ordered asynchronous writes and the flush
    on writability share one queue of partly written buffers.

    The kernel is a script of answers, one per write(2); every theorem holds for all scripts,
    that is for every pattern of short, failed and interrupted writes. */
module WritePath {
  import opened Basics
  import Interest

  /** A buffer waiting to be sent, the first `writen` of its `len` bytes on the wire already. */
  datatype AsyncBuf = AsyncBuf(writen: nat, len: nat, buf: seq<Byte>) {
    predicate Valid() { writen <= len <= |buf| }

    /** What is still to be sent. */
    function Left(): seq<Byte>
      requires Valid()
    {
      buf[writen..len]
    }
  }

  /** The answer to write(2): up to `n` bytes taken, EINTR, or another error. */
  datatype Ret = Accept(n: nat) | Eintr | Fail

  /** The return value of write(2) on `len` bytes. */
  function Written(r: Ret, len: nat): (n: int)
    ensures -1 <= n <= len
  {
    match r
    case Accept(n) => if n < len then n else len
    case _ => -1
  }

  /** The next answer of the kernel; a script that has run out answers with an error. */
  function Next(rets: seq<Ret>): Ret { if rets == [] then Fail else rets[0] }

  function Rest(rets: seq<Ret>): seq<Ret> { if rets == [] then [] else rets[1..] }

  /** The first answer other than EINTR, and the script after it. */
  function AfterEintr(rets: seq<Ret>): (r: (Ret, seq<Ret>))
    ensures r.0 != Eintr
    decreases |rets|
  {
    if Next(rets) == Eintr then AfterEintr(Rest(rets)) else (Next(rets), Rest(rets))
  }

  /** A handle: its descriptor (below 1 when closed), `asyncWriteWaiting`, `asyncWriteBufSize`,
      the queue, the stored interest mask, and the bytes the kernel has taken. */
  datatype Handle = Handle(fd: int, waiting: bool, size: int, q: seq<AsyncBuf>, mask: Interest.Mask, wire: seq<Byte>)

  predicate Open(h: Handle) { h.fd >= 1 }

  /** The bytes taken by a write(2) of `data` answered with `r`. */
  function Sent(data: seq<Byte>, r: Ret): (s: seq<Byte>)
    ensures s <= data
  {
    if Written(r, |data|) > 0 then data[..Written(r, |data|)] else []
  }

  /** The buffer after write(2) took `n` of its bytes. */
  function Advance(b: AsyncBuf, n: nat): AsyncBuf { b.(writen := b.writen + n) }

  /** write(2) took the rest of the buffer, and that was something: the test for a buffer being
      done is never met by one that had nothing left. */
  predicate Done(b: AsyncBuf, r: Ret)
    requires b.Valid()
  {
    Sent(b.Left(), r) != [] && Sent(b.Left(), r) == b.Left()
  }

  /** One write(2) of what is left of `b`: bytes on the wire, counter down. */
  function Push(h: Handle, b: AsyncBuf, r: Ret): Handle
    requires b.Valid()
  {
    h.(wire := h.wire + Sent(b.Left(), r), size := h.size - |Sent(b.Left(), r)|)
  }

  function WaitForOut(h: Handle): Handle {
    if h.waiting then h else h.(waiting := true, mask := Interest.With(h.mask, Interest.EV_OUT))
  }

  // ----- Write -----

  datatype Error = NoError | EBADF | EWRITE

  /** io_handle.go:114-159: the handle, the count and error returned, and the script left. */
  function Write(h: Handle, bf: seq<Byte>, rets: seq<Ret>): (Handle, nat, Error, seq<Ret>) {
    if !Open(h) then (h, 0, EBADF, rets)
    else if h.q != [] then
      (h.(q := h.q + [AsyncBuf(0, |bf|, bf)], size := h.size + |bf|), |bf|, NoError, rets)
    else
      var (ret, rest) := AfterEintr(rets);
      (WriteOut(h, bf, ret), |bf|, if ret == Fail then EWRITE else NoError, rest)
  }

  /** A synchronous write with an empty queue: what the kernel does not take is queued. */
  function WriteOut(h: Handle, bf: seq<Byte>, ret: Ret): Handle {
    var n := |Sent(bf, ret)|;
    var h1 := h.(wire := h.wire + Sent(bf, ret));
    if n < |bf| then
      WaitForOut(h1.(q := [AsyncBuf(0, |bf| - n, bf[n..])], size := h1.size + (|bf| - n)))
    else h1
  }

  // ----- asyncOrderedWrite -----

  /** io_handle_async.go:87-121; EINTR counts as a failed write here. */
  function OrderedWrite(h: Handle, abf: AsyncBuf, rets: seq<Ret>): (Handle, seq<Ret>)
    requires abf.Valid()
  {
    if !Open(h) then (h, rets)
    else
      var h0 := h.(size := h.size + abf.len);
      if h0.q != [] then (h0.(q := h0.q + [abf]), rets)
      else
        var ret := Next(rets);
        var h1 := Push(h0, abf, ret);
        if Done(abf, ret) then (h1, Rest(rets))
        else (WaitForOut(h1.(q := [Advance(abf, |Sent(abf.Left(), ret)|)])), Rest(rets))
  }

  // ----- AsyncOrderedFlush -----

  predicate ValidQ(q: seq<AsyncBuf>) {
    forall i :: 0 <= i < |q| ==> q[i].Valid()
  }

  /** One attempt of the flush: the front buffer is sent, or what is left of it is put back. */
  function TryFront(h: Handle, r: Ret): (h': Handle)
    requires ValidQ(h.q) && h.q != []
    ensures ValidQ(h'.q)
  {
    var b := h.q[0];
    Push(h, b, r).(q := if Done(b, r) then h.q[1..] else [Advance(b, |Sent(b.Left(), r)|)] + h.q[1..])
  }

  /** The loop of the flush: at most `n` buffers are tried, up to the first that is not sent
      completely. */
  function FlushLoop(h: Handle, n: nat, rets: seq<Ret>): (Handle, seq<Ret>)
    requires ValidQ(h.q)
    decreases n
  {
    if n == 0 || h.q == [] then (h, rets)
    else
      var h1 := TryFront(h, Next(rets));
      if Done(h.q[0], Next(rets)) then FlushLoop(h1, n - 1, Rest(rets)) else (h1, Rest(rets))
  }

  /** io_handle_async.go:32-62 */
  function Flush(h: Handle, rets: seq<Ret>): (Handle, seq<Ret>)
    requires ValidQ(h.q)
  {
    if !Open(h) then (h, rets)
    else
      var (h1, rest) := FlushLoop(h, |h.q|, rets);
      if h1.q == [] then (h1.(waiting := false, mask := Interest.Without(h1.mask, Interest.EV_OUT)), rest)
      else (h1, rest)
  }

  /** Destroy, as far as the write path goes: the descriptor is closed, the queue is dropped. */
  function Destroy(h: Handle): Handle { h.(fd := if h.fd > 0 then -1 else h.fd, q := []) }

  // ----- Conservation: nothing lost, duplicated or overtaken -----

  /** The unsent bytes of the queue, in order. */
  ghost function Pending(q: seq<AsyncBuf>): seq<Byte>
    requires ValidQ(q)
  {
    if q == [] then [] else q[0].Left() + Pending(q[1..])
  }

  lemma {:induction false} PendingSnoc(q: seq<AsyncBuf>, b: AsyncBuf)
    requires ValidQ(q) && b.Valid()
    ensures ValidQ(q + [b]) && Pending(q + [b]) == Pending(q) + b.Left()
  {
    if q == [] {
      assert [b][1..] == [];
    } else {
      assert (q + [b])[1..] == q[1..] + [b];
      PendingSnoc(q[1..], b);
    }
  }

  lemma PendingOne(b: AsyncBuf)
    requires b.Valid()
    ensures ValidQ([b]) && Pending([b]) == b.Left()
  {
    assert [b][1..] == [];
  }

  /** Everything handed to the handle so far: what is on the wire, then what is pending. */
  ghost function Stream(h: Handle): seq<Byte>
    requires ValidQ(h.q)
  {
    h.wire + Pending(h.q)
  }

  /** What write(2) takes of a buffer, and the buffer that remains. */
  lemma BufferSplit(b: AsyncBuf, r: Ret)
    requires b.Valid()
    ensures var b' := Advance(b, |Sent(b.Left(), r)|);
            && b'.Valid() && ValidQ([b']) && Pending([b']) == b'.Left()
            && Sent(b.Left(), r) + b'.Left() == b.Left()
  {
    PendingOne(Advance(b, |Sent(b.Left(), r)|));
  }

  lemma WriteOutConserves(h: Handle, bf: seq<Byte>, ret: Ret)
    requires h.q == []
    ensures var h' := WriteOut(h, bf, ret);
            ValidQ(h'.q) && Stream(h') == Stream(h) + bf && h.wire <= h'.wire && h'.fd == h.fd
  {
    var sent := Sent(bf, ret);
    var rest := bf[|sent|..];
    assert bf == sent + rest;
    Appended(h.wire, sent, rest);
    if |sent| < |bf| {
      PendingOne(AsyncBuf(0, |rest|, rest));
      assert AsyncBuf(0, |rest|, rest).Left() == rest;
    } else {
      assert rest == [];
    }
  }

  lemma Appended<T>(w: seq<T>, sent: seq<T>, rest: seq<T>)
    ensures (w + sent) + rest == (w + []) + (sent + rest)
    ensures rest == [] ==> (w + sent) + [] == (w + sent) + rest
  {
  }

  /** A synchronous write on an open handle adds exactly its bytes, whatever the kernel answers,
      and says so; bytes on the wire stay there. */
  lemma WriteConserves(h: Handle, bf: seq<Byte>, rets: seq<Ret>)
    requires ValidQ(h.q) && Open(h)
    ensures var (h', n, _, _) := Write(h, bf, rets);
            ValidQ(h'.q) && Stream(h') == Stream(h) + bf && n == |bf| && h.wire <= h'.wire && h'.fd == h.fd
  {
    if h.q != [] {
      PendingSnoc(h.q, AsyncBuf(0, |bf|, bf));
    } else {
      WriteOutConserves(h, bf, AfterEintr(rets).0);
    }
  }

  /** An ordered write on an open handle adds exactly the unsent bytes of its buffer. */
  lemma OrderedWriteConserves(h: Handle, abf: AsyncBuf, rets: seq<Ret>)
    requires ValidQ(h.q) && Open(h) && abf.Valid()
    ensures var (h', _) := OrderedWrite(h, abf, rets);
            ValidQ(h'.q) && Stream(h') == Stream(h) + abf.Left() && h.wire <= h'.wire && h'.fd == h.fd
  {
    if h.q != [] {
      PendingSnoc(h.q, abf);
    } else {
      BufferSplit(abf, Next(rets));
    }
  }

  lemma PendingCons(b: AsyncBuf, q: seq<AsyncBuf>)
    requires b.Valid() && ValidQ(q)
    ensures ValidQ([b] + q) && Pending([b] + q) == b.Left() + Pending(q)
  {
    assert ([b] + q)[1..] == q;
  }

  lemma Moved<T>(w: seq<T>, sent: seq<T>, left: seq<T>, p: seq<T>)
    ensures (w + sent) + (left + p) == w + ((sent + left) + p)
  {
  }

  lemma TryFrontConserves(h: Handle, r: Ret)
    requires ValidQ(h.q) && h.q != []
    ensures var h' := TryFront(h, r);
            Stream(h') == Stream(h) && h.wire <= h'.wire && h'.fd == h.fd
  {
    var b := h.q[0];
    var sent := Sent(b.Left(), r);
    var b' := Advance(b, |sent|);
    BufferSplit(b, r);
    Moved(h.wire, sent, b'.Left(), Pending(h.q[1..]));
    if Done(b, r) {
      assert b'.Left() == [];
      assert b'.Left() + Pending(h.q[1..]) == Pending(h.q[1..]);
    } else {
      PendingCons(b', h.q[1..]);
    }
  }

  lemma {:induction false} FlushLoopConserves(h: Handle, n: nat, rets: seq<Ret>)
    requires ValidQ(h.q)
    ensures var (h', _) := FlushLoop(h, n, rets);
            ValidQ(h'.q) && Stream(h') == Stream(h) && h.wire <= h'.wire && h'.fd == h.fd
    decreases n
  {
    if n > 0 && h.q != [] {
      TryFrontConserves(h, Next(rets));
      if Done(h.q[0], Next(rets)) {
        FlushLoopConserves(TryFront(h, Next(rets)), n - 1, Rest(rets));
      }
    }
  }

  /** A flush moves bytes from the queue to the wire and changes nothing else of the stream. */
  lemma FlushConserves(h: Handle, rets: seq<Ret>)
    requires ValidQ(h.q)
    ensures var (h', _) := Flush(h, rets);
            ValidQ(h'.q) && Stream(h') == Stream(h) && h.wire <= h'.wire && h'.fd == h.fd
  {
    FlushLoopConserves(h, |h.q|, rets);
  }

  // ----- What each call answers, and what it hands to the kernel -----

  /** Answer number `k` is the first other than EINTR; the script may end before one comes. */
  predicate FirstAnswer(rets: seq<Ret>, k: nat) {
    && k <= |rets|
    && (forall i :: 0 <= i < k ==> rets[i] == Eintr)
    && (k < |rets| ==> rets[k] != Eintr)
  }

  lemma {:induction false} AfterEintrFirst(rets: seq<Ret>, k: nat)
    requires FirstAnswer(rets, k)
    ensures AfterEintr(rets) == if k < |rets| then (rets[k], rets[k + 1..]) else (Fail, [])
    decreases k
  {
    if k > 0 {
      AfterEintrFirst(rets[1..], k - 1);
    }
  }

  /** What `Write` tells its caller, for every handle: the count is what the stream has grown by, be
      it all of the buffer or, on a closed handle, nothing; the error is EBADF exactly for a
      closed handle, and EWRITE exactly if nothing was queued and the kernel refused. */
  lemma WriteAnswers(h: Handle, bf: seq<Byte>, rets: seq<Ret>, k: nat)
    requires ValidQ(h.q) && FirstAnswer(rets, k)
    ensures var (h', n, err, _) := Write(h, bf, rets);
            && ValidQ(h'.q) && Stream(h') == Stream(h) + (if h.fd < 1 then [] else bf)
            && n == |Stream(h')| - |Stream(h)|
            && (err == EBADF <==> h.fd < 1)
            && (err == EWRITE <==> h.fd >= 1 && h.q == [] && (k == |rets| || rets[k] == Fail))
  {
    AfterEintrFirst(rets, k);
    if Open(h) {
      WriteConserves(h, bf, rets);
    }
  }

  /** It calls write(2) only with an empty queue, until the answer is not EINTR, and what that answer
      takes goes to the wire at once. */
  lemma WriteCallsKernel(h: Handle, bf: seq<Byte>, rets: seq<Ret>, k: nat)
    requires FirstAnswer(rets, k)
    ensures var (h', _, _, rest) := Write(h, bf, rets);
            if h.fd < 1 || h.q != [] then h'.wire == h.wire && rest == rets
            else if k == |rets| || !rets[k].Accept? then h'.wire == h.wire && rest == if k < |rets| then rets[k + 1..] else []
            else h'.wire == h.wire + bf[..if rets[k].n < |bf| then rets[k].n else |bf|] && rest == rets[k + 1..]
  {
    AfterEintrFirst(rets, k);
  }

  /** An ordered write makes one attempt, and only with an empty queue; an interrupted one counts. */
  lemma OrderedWriteCallsKernel(h: Handle, abf: AsyncBuf, rets: seq<Ret>)
    requires abf.Valid()
    ensures var (h', rest) := OrderedWrite(h, abf, rets);
            if h.fd < 1 then h' == h && rest == rets
            else if h.q != [] then h'.wire == h.wire && rest == rets
            else
              && rest == (if rets == [] then [] else rets[1..])
              && h'.wire == h.wire + (if rets == [] || !rets[0].Accept? then []
                                      else abf.Left()[..if rets[0].n < |abf.Left()| then rets[0].n else |abf.Left()|])
  {
  }

  /** The kernel took all that was left of these buffers, and that was something. */
  ghost predicate TookWhole(q: seq<AsyncBuf>, rets: seq<Ret>, k: nat)
    requires ValidQ(q) && k <= |q|
  {
    k <= |rets| && forall i :: 0 <= i < k ==> rets[i].Accept? && rets[i].n >= |q[i].Left()| > 0
  }

  lemma TookWholeFirst(q: seq<AsyncBuf>, rets: seq<Ret>, k: nat)
    requires ValidQ(q) && 1 <= k <= |q|
    ensures TookWhole(q, rets, k) <==> TookWhole(q, rets, 1) && TookWhole(q[1..], rets[1..], k - 1)
  {
    if TookWhole(q, rets, 1) && TookWhole(q[1..], rets[1..], k - 1) {
      forall i | 0 <= i < k ensures rets[i].Accept? && rets[i].n >= |q[i].Left()| > 0 {
        if i > 0 {
          assert q[i] == q[1..][i - 1] && rets[i] == rets[1..][i - 1];
        }
      }
    }
    if TookWhole(q, rets, k) {
      assert forall i :: 0 <= i < k - 1 ==> q[1..][i] == q[i + 1] && rets[1..][i] == rets[i + 1];
    }
  }

  /** What the kernel takes of `data` when its answer is number `k` of the script. */
  function TakenBy(data: seq<Byte>, rets: seq<Ret>, k: nat): seq<Byte> {
    if k < |rets| && rets[k].Accept? then data[..if rets[k].n < |data| then rets[k].n else |data|] else []
  }

  /** What a flush of queue `q`, behind `wire`, leaves after taking the first `k` buffers whole: the
      next one stays at the front, with what was taken of it marked off, unless there is none. */
  ghost predicate FlushedAt(q: seq<AsyncBuf>, wire: seq<Byte>, rets: seq<Ret>, k: nat, h': Handle, rest: seq<Ret>)
    requires ValidQ(q) && k <= |q|
  {
    && TookWhole(q, rets, k)
    && if k == |q| then h'.q == [] && h'.wire == wire + Pending(q) && rest == rets[k..]
       else
         var b := q[k];
         var part := TakenBy(b.Left(), rets, k);
         && (part == [] || part != b.Left())
         && h'.q == [AsyncBuf(b.writen + |part|, b.len, b.buf)] + q[k + 1..]
         && h'.wire == wire + Pending(q[..k]) + part
         && rest == if k < |rets| then rets[k + 1..] else []
  }

  lemma SameAfterFirst(q: seq<AsyncBuf>, rets: seq<Ret>, k: nat)
    requires ValidQ(q) && q != [] && rets != [] && k < |q| - 1
    ensures q[1..][k] == q[k + 1] && q[1..][k + 1..] == q[k + 2..]
    ensures TakenBy(q[k + 1].Left(), rets[1..], k) == TakenBy(q[k + 1].Left(), rets, k + 1)
    ensures Pending(q[..k + 1]) == q[0].Left() + Pending(q[1..][..k])
  {
    assert q[..k + 1][1..] == q[1..][..k] && q[..k + 1][0] == q[0];
  }

  lemma FlushedNext(q: seq<AsyncBuf>, wire: seq<Byte>, rets: seq<Ret>, k: nat, h': Handle, rest: seq<Ret>)
    requires ValidQ(q) && q != [] && TookWhole(q, rets, 1) && k <= |q| - 1
    requires FlushedAt(q[1..], wire + q[0].Left(), rets[1..], k, h', rest)
    ensures FlushedAt(q, wire, rets, k + 1, h', rest)
  {
    TookWholeFirst(q, rets, k + 1);
    var first, more := q[0].Left(), q[1..];
    if k < |more| {
      SameAfterFirst(q, rets, k);
      Regroup(wire, first, Pending(more[..k]), TakenBy(more[k].Left(), rets[1..], k));
    } else {
      Regroup(wire, first, Pending(more), []);
    }
  }

  lemma Regroup(wire: seq<Byte>, first: seq<Byte>, more: seq<Byte>, part: seq<Byte>)
    ensures (wire + first) + more == wire + (first + more)
    ensures (wire + first) + more + part == wire + (first + more) + part
  {
  }

  lemma FirstStays(h: Handle, rets: seq<Ret>)
    requires ValidQ(h.q) && h.q != [] && !Done(h.q[0], Next(rets))
    ensures FlushedAt(h.q, h.wire, rets, 0, TryFront(h, Next(rets)), Rest(rets))
  {
    assert Sent(h.q[0].Left(), Next(rets)) == TakenBy(h.q[0].Left(), rets, 0);
    assert h.q[..0] == [] && h.wire + Pending([]) == h.wire;
  }

  lemma FirstGoes(h: Handle, rets: seq<Ret>)
    requires ValidQ(h.q) && h.q != [] && Done(h.q[0], Next(rets))
    ensures rets != [] && TookWhole(h.q, rets, 1)
    ensures TryFront(h, Next(rets)).q == h.q[1..] && TryFront(h, Next(rets)).wire == h.wire + h.q[0].Left()
  {
  }

  lemma FlushLoopGoesOn(h: Handle, rets: seq<Ret>)
    requires ValidQ(h.q) && h.q != [] && rets != [] && Done(h.q[0], rets[0])
    ensures var h1 := TryFront(h, rets[0]);
            h1.q == h.q[1..] && FlushLoop(h, |h.q|, rets) == FlushLoop(h1, |h1.q|, rets[1..])
  {
  }

  lemma {:induction false} FlushLoopTakes(h: Handle, rets: seq<Ret>) returns (k: nat, h': Handle, rest: seq<Ret>)
    requires ValidQ(h.q)
    ensures k <= |h.q| && FlushLoop(h, |h.q|, rets) == (h', rest)
    ensures FlushedAt(h.q, h.wire, rets, k, h', rest)
    decreases |h.q|
  {
    if h.q == [] {
      k, h', rest := 0, h, rets;
      assert h.wire + Pending(h.q) == h.wire && rets[0..] == rets;
    } else if Done(h.q[0], Next(rets)) {
      FirstGoes(h, rets);
      FlushLoopGoesOn(h, rets);
      k, h', rest := FlushLoopTakes(TryFront(h, rets[0]), rets[1..]);
      FlushedNext(h.q, h.wire, rets, k, h', rest);
      k := k + 1;
    } else {
      FirstStays(h, rets);
      k, h', rest := 0, TryFront(h, Next(rets)), Rest(rets);
    }
  }

  /** A flush of an open handle stops at the first buffer that is not taken whole, and asks for no
      further answer. */
  lemma FlushTakes(h: Handle, rets: seq<Ret>) returns (k: nat)
    requires ValidQ(h.q) && h.fd >= 1
    ensures k <= |h.q|
    ensures var (h', rest) := Flush(h, rets); FlushedAt(h.q, h.wire, rets, k, h', rest)
  {
    var h1, rest;
    k, h1, rest := FlushLoopTakes(h, rets);
  }
}
