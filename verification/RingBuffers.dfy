/** The growable ring buffer under every queue of the reactor (ringbuffer.go).

    `RingBuffer` keeps the fields of the source and updates them in place.  Its
    abstract value `Contents()` is the queue from front to back; every operation
    is specified on that sequence alone, and `Replay` lifts the specification to
    whole runs of operations. */
module RingBuffers {

  // ----- Reading a circular slice as a sequence -----

  /** Index `i`, at most one lap ahead, brought back into a buffer of `n` slots. */
  function Wrap(i: nat, n: nat): nat
    requires i < 2 * n
  {
    if i < n then i else i - n
  }

  lemma WrapIsModulo(i: nat, n: nat)
    requires i < 2 * n
    ensures i % n == Wrap(i, n)
  {
    if i >= n {
      assert i == n * 1 + (i - n);
      assert (i - n) / n == 0;
    }
  }

  /** One step of either end of a queue of `len` items at `head` keeps the two ends together. */
  lemma EndsMove(head: nat, tail: nat, len: nat, n: nat)
    requires head < n && len <= n && tail == Wrap(head + len, n)
    ensures len < n ==> (tail + 1) % n == Wrap(head + len + 1, n)
    ensures len > 0 ==> var head' := Wrap(head + 1, n); (head + 1) % n == head' < n && tail == Wrap(head' + (len - 1), n)
    ensures len < n ==> var head' := Wrap(n + head - 1, n); (n + head - 1) % n == head' < n && tail == Wrap(head' + (len + 1), n)
  {
    WrapIsModulo(tail + 1, n);
    WrapIsModulo(head + 1, n);
    WrapIsModulo(n + head - 1, n);
  }

  ghost predicate InRange<T>(b: seq<T>, head: nat, len: nat) {
    len <= |b| && (if |b| == 0 then head == 0 else head < |b|)
  }

  /** The `len` items that start at slot `head` of the circular slice `b`. */
  ghost function Unroll<T>(b: seq<T>, head: nat, len: nat): (s: seq<T>)
    requires InRange(b, head, len)
    ensures |s| == len
  {
    if head + len <= |b| then b[head..head + len] else b[head..] + b[..head + len - |b|]
  }

  lemma UnrollAt<T>(b: seq<T>, head: nat, len: nat)
    requires InRange(b, head, len)
    ensures forall k :: 0 <= k < len ==> Unroll(b, head, len)[k] == b[Wrap(head + k, |b|)]
  {
  }

  /** Slot `i` of `n` is one of the `len` slots that start at `head`. */
  ghost predicate Occupied(i: nat, head: nat, len: nat, n: nat) {
    head <= i < head + len || i + n < head + len
  }

  /** Every slot outside the `len` occupied ones holds `zero`. */
  ghost predicate Clean<T>(b: seq<T>, head: nat, len: nat, zero: T) {
    forall i :: 0 <= i < |b| && !Occupied(i, head, len, |b|) ==> b[i] == zero
  }

  lemma UnrollPushBack<T>(b: seq<T>, head: nat, tail: nat, len: nat, x: T, zero: T)
    requires InRange(b, head, len) && len < |b| && Clean(b, head, len, zero) && tail == Wrap(head + len, |b|)
    ensures var b' := b[tail := x];
            Unroll(b', head, len + 1) == Unroll(b, head, len) + [x] && Clean(b', head, len + 1, zero)
  {
    var b' := b[tail := x];
    var s, s' := Unroll(b, head, len), Unroll(b', head, len + 1);
    UnrollAt(b, head, len);
    UnrollAt(b', head, len + 1);
    forall k | 0 <= k < len ensures s'[k] == s[k] {
      assert Wrap(head + k, |b|) != Wrap(head + len, |b|);
    }
    assert s' == s + [x];
  }

  lemma UnrollPopFront<T>(b: seq<T>, head: nat, len: nat, zero: T)
    requires InRange(b, head, len) && 0 < len && Clean(b, head, len, zero)
    ensures var b', head' := b[head := zero], Wrap(head + 1, |b|);
            [b[head]] + Unroll(b', head', len - 1) == Unroll(b, head, len) && Clean(b', head', len - 1, zero)
  {
    var b', head' := b[head := zero], Wrap(head + 1, |b|);
    var s, s' := Unroll(b, head, len), Unroll(b', head', len - 1);
    UnrollAt(b, head, len);
    UnrollAt(b', head', len - 1);
    forall k | 0 <= k < len - 1 ensures s'[k] == s[k + 1] {
      assert Wrap(head' + k, |b|) == Wrap(head + (k + 1), |b|) != head;
    }
    assert [b[head]] + s' == s;
  }

  lemma UnrollPushFront<T>(b: seq<T>, head: nat, len: nat, x: T, zero: T)
    requires InRange(b, head, len) && len < |b| && Clean(b, head, len, zero)
    ensures var head' := Wrap(|b| + head - 1, |b|); var b' := b[head' := x];
            Unroll(b', head', len + 1) == [x] + Unroll(b, head, len) && Clean(b', head', len + 1, zero)
  {
    var head' := Wrap(|b| + head - 1, |b|);
    var b' := b[head' := x];
    var s, s' := Unroll(b, head, len), Unroll(b', head', len + 1);
    UnrollAt(b, head, len);
    UnrollAt(b', head', len + 1);
    forall k | 0 <= k < len ensures s'[k + 1] == s[k] {
      assert Wrap(head' + (k + 1), |b|) == Wrap(head + k, |b|) != head';
    }
    assert s' == [x] + s;
  }

  /** Items laid out from slot 0 with zeros behind them read back as themselves. */
  lemma UnrollStraight<T>(b: seq<T>, len: nat, zero: T)
    requires 0 < len <= |b| && forall k :: len <= k < |b| ==> b[k] == zero
    ensures Unroll(b, 0, len) == b[..len] && Clean(b, 0, len, zero)
  {
  }

  /** The two slices `grow` copies. */
  lemma UnrollParts<T>(b: seq<T>, head: nat, tail: nat, len: nat)
    requires InRange(b, head, len) && len > 0 && tail == Wrap(head + len, |b|)
    ensures Unroll(b, head, len) == if tail > head then b[head..tail] else b[head..] + b[..tail]
  {
  }

  lemma TwoCopies<T>(d: seq<T>, x: seq<T>, y: seq<T>)
    requires |x| + |y| <= |d|
    ensures var d1 := d[..0] + x + d[|x|..];
            d1[..|x|] + y + d1[|x| + |y|..] == x + y + d[|x| + |y|..]
  {
  }

  /** Go's `copy` into `dst[at:]`, for a source that fits. */
  method Copy<T>(dst: array<T>, at: nat, src: seq<T>) returns (n: nat)
    requires at + |src| <= dst.Length
    modifies dst
    ensures n == |src|
    ensures dst[..] == old(dst[..])[..at] + src + old(dst[..])[at + |src|..]
  {
    n := |src|;
    forall i | 0 <= i < n { dst[at + i] := src[i]; }
  }

  class RingBuffer<T> {
    var size: nat
    var head: nat
    var tail: nat
    var len: nat
    const zero: T
    var buffer: array<T>

    ghost predicate Valid()
      reads this, buffer
    {
      && buffer.Length == size
      && InRange(buffer[..], head, len)
      && tail == (if size == 0 then 0 else Wrap(head + len, size))
      && Clean(buffer[..], head, len, zero)
    }

    /** The queued items, front first. */
    ghost function Contents(): (s: seq<T>)
      requires Valid()
      reads this, buffer
      ensures |s| == len
    {
      Unroll(buffer[..], head, len)
    }

    constructor (initCap: nat, zero: T)
      ensures Valid() && fresh(buffer)
      ensures size == initCap && this.zero == zero
      ensures Contents() == []
    {
      this.zero := zero;
      buffer := new T[initCap](_ => zero);
      size, head, tail, len := initCap, 0, 0, 0;
    }

    method IsEmpty() returns (r: bool)
      requires Valid()
      ensures r <==> Contents() == []
    {
      r := len == 0;
    }

    method IsFull() returns (r: bool)
      requires Valid()
      ensures r <==> |Contents()| == size
    {
      r := len == size;
    }

    /** Copies the items to the front of `newBuffer`, in order. */
    method CopyItems(newBuffer: array<T>) returns (n: nat)
      requires Valid() && len > 0 && newBuffer.Length > size && newBuffer != buffer
      modifies newBuffer
      ensures n == len && newBuffer[..] == Contents() + old(newBuffer[..])[n..]
    {
      ghost var d := newBuffer[..];
      UnrollParts(buffer[..], head, tail, len);
      if tail > head {
        n := Copy(newBuffer, 0, buffer[head..tail]);
        assert buffer[head..tail] == buffer[..][head..tail];
      } else {
        ghost var x, y := buffer[head..], buffer[..tail];
        assert x == buffer[..][head..] && y == buffer[..][..tail];
        n := Copy(newBuffer, 0, buffer[head..]);
        var m := Copy(newBuffer, n, buffer[..tail]);
        TwoCopies(d, x, y);
        n := n + m;
      }
    }

    /** Doubles the capacity and moves the items to the front (called when full). */
    method Grow()
      requires Valid() && len > 0
      modifies this
      ensures Valid() && fresh(buffer)
      ensures size == 2 * old(size) && head == 0 && len == old(len)
      ensures Contents() == old(Contents())
    {
      var newCapacity := size * 2;
      var newBuffer := new T[newCapacity](_ => zero);
      ghost var zeros := newBuffer[..];
      var n := CopyItems(newBuffer);
      ghost var b := newBuffer[..];
      assert b[..n] == Contents();
      forall k | n <= k < newCapacity ensures b[k] == zero {
        assert b[k] == zeros[n..][k - n];
      }
      UnrollStraight(b, n, zero);
      buffer := newBuffer;
      size := newCapacity;
      head := 0;
      tail := n;
    }

    /** The guard at the head of both pushes: a free slot, and the items unmoved. */
    method Reserve()
      requires Valid() && size > 0
      modifies this
      ensures Valid() && len < size && size >= old(size) && (buffer == old(buffer) || fresh(buffer))
      ensures Contents() == old(Contents())
    {
      if len == size {
        Grow();
      }
    }

    /** A push into a buffer created with capacity 0 indexes an empty array in
        the source, hence `size > 0`. */
    method PushBack(data: T)
      requires Valid() && size > 0
      modifies this, buffer
      ensures Valid() && size >= old(size) && (buffer == old(buffer) || fresh(buffer))
      ensures Contents() == old(Contents()) + [data]
    {
      Reserve();
      EndsMove(head, tail, len, size);
      UnrollPushBack(buffer[..], head, tail, len, data, zero);
      ghost var before := buffer[..];
      buffer[tail] := data;
      assert buffer[..] == before[tail := data];
      tail := (tail + 1) % size;
      len := len + 1;
    }

    method PopFront() returns (data: T, ok: bool)
      requires Valid()
      modifies this, buffer
      ensures Valid() && size == old(size) && buffer == old(buffer)
      ensures ok <==> old(Contents()) != []
      ensures ok ==> [data] + Contents() == old(Contents())
      ensures !ok ==> data == zero && Contents() == []
    {
      if len == 0 {
        return zero, false;
      }
      EndsMove(head, tail, len, size);
      UnrollPopFront(buffer[..], head, len, zero);
      data := buffer[head];
      buffer[head] := zero;
      assert buffer[..] == old(buffer[..])[head := zero];
      head := (head + 1) % size;
      len := len - 1;
      ok := true;
    }

    method PushFront(data: T)
      requires Valid() && size > 0
      modifies this, buffer
      ensures Valid() && size >= old(size) && (buffer == old(buffer) || fresh(buffer))
      ensures Contents() == [data] + old(Contents())
    {
      Reserve();
      EndsMove(head, tail, len, size);
      UnrollPushFront(buffer[..], head, len, data, zero);
      ghost var before := buffer[..];
      head := (size + head - 1) % size;
      buffer[head] := data;
      assert buffer[..] == before[head := data];
      len := len + 1;
    }
  }

  // ----- Runs of operations -----

  datatype Op<T> = Back(x: T) | Front(x: T) | Pop

  /** One operation on an unbounded double-ended sequence: what is left, what is handed out. */
  ghost function DequeStep<T>(s: seq<T>, op: Op<T>): (seq<T>, seq<T>) {
    match op
    case Back(x) => (s + [x], [])
    case Front(x) => ([x] + s, [])
    case Pop => if s == [] then (s, []) else (s[1..], [s[0]])
  }

  ghost function Deque<T>(s: seq<T>, ops: seq<Op<T>>): (seq<T>, seq<T>) {
    if ops == [] then (s, [])
    else
      var (before, out) := Deque(s, ops[..|ops| - 1]);
      var (after, last) := DequeStep(before, ops[|ops| - 1]);
      (after, out + last)
  }

  method Apply<T>(rb: RingBuffer<T>, op: Op<T>) returns (out: seq<T>)
    requires rb.Valid() && rb.size > 0
    modifies rb, rb.buffer
    ensures rb.Valid() && rb.size > 0 && (rb.buffer == old(rb.buffer) || fresh(rb.buffer))
    ensures (rb.Contents(), out) == DequeStep(old(rb.Contents()), op)
  {
    out := [];
    match op
    case Back(x) => rb.PushBack(x);
    case Front(x) => rb.PushFront(x);
    case Pop =>
      var x, ok := rb.PopFront();
      if ok {
        out := [x];
        assert old(rb.Contents())[1..] == rb.Contents();
      }
  }

  /** Every run of the ring buffer is a run of the unbounded double-ended sequence; the two ends
      stay where the source's comments put them. */
  method Replay<T>(rb: RingBuffer<T>, ops: seq<Op<T>>) returns (out: seq<T>)
    requires rb.Valid() && rb.size > 0
    modifies rb, rb.buffer
    ensures rb.Valid() && rb.size > 0 && (rb.buffer == old(rb.buffer) || fresh(rb.buffer))
    ensures (rb.Contents(), out) == Deque(old(rb.Contents()), ops)
    ensures rb.tail == (rb.head + |rb.Contents()|) % rb.size
  {
    out := [];
    for i := 0 to |ops|
      invariant rb.Valid() && rb.size > 0 && (rb.buffer == old(rb.buffer) || fresh(rb.buffer))
      invariant (rb.Contents(), out) == Deque(old(rb.Contents()), ops[..i])
    {
      var last := Apply(rb, ops[i]);
      out := out + last;
      assert ops[..i + 1][..i] == ops[..i];
    }
    assert ops[..|ops|] == ops;
    WrapIsModulo(rb.head + rb.len, rb.size);
  }
}
