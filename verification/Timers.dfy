/** The timer heap as the reactor runs it (timer_4heap.go): items shared between the heap
    and the handlers, swapped and rewritten in place.  Every method is proved against
    the value-level operation of the modules `TimerHeap`, `TimerExpiry` and `TimerArming`. */
module Timers {
  import opened Basics
  import opened TimerHeap
  import opened TimerExpiry
  import Arming = TimerArming

  /** The timer side of an `EvHandler`. */
  class Handler {
    const id: nat
    var ti: TimerItem?

    constructor (id: nat)
      ensures this.id == id && ti == null
    {
      this.id := id;
      ti := null;
    }
  }

  class TimerItem {
    ghost const id: nat
    var expiredAt: int
    var interval: int
    var eh: Handler?

    constructor (ghost id: nat, expiredAt: int, interval: int, eh: Handler)
      ensures this.id == id && this.expiredAt == expiredAt && this.interval == interval && this.eh == eh
    {
      this.id := id;
      this.expiredAt := expiredAt;
      this.interval := interval;
      this.eh := eh;
    }

    ghost function AsEntry(): Entry
      reads this
    {
      Entry(id, expiredAt, interval, if eh == null then None else Some(eh.id))
    }
  }

  /** One round of `Expire`, in the form the loop of `HandleExpired` uses it. */
  lemma ExpireStep(s: Heap, now: int, cb: Callbacks, e: Entry, t: Heap, sofar: seq<Entry>)
    requires NoSpin(s, now, cb)
    requires RoundOf(s, e, t, now, cb)
    ensures NoSpin(t, now, cb) && |DueOf(t, now)| < |DueOf(s, now)|
    ensures sofar + Expire(s, now, cb).0 == (if e.Live() then sofar + [e] else sofar) + Expire(t, now, cb).0
    ensures Expire(s, now, cb).1 == Expire(t, now, cb).1 && Expire(s, now, cb).2 == Expire(t, now, cb).2
  {
    PopIsRound(s, now, cb);
    RoundShrinks(s, e, t, now, cb);
    RoundKeepsNoSpin(s, e, t, now, cb);
    var (f, _, _) := Expire(t, now, cb);
    assert sofar + ([e] + f) == sofar + [e] + f;
  }

  /** `t` is what one round of the loop of `handleExpired` makes of `s`, having popped `e`. */
  ghost predicate RoundOf(s: Heap, e: Entry, t: Heap, now: int, cb: Callbacks) {
    var (p, _, rest) := TimerHeap.PopOne(s, now, SLACK);
    p == Some(e) && t == TimerExpiry.Settle(rest, e, now, cb)
  }

  lemma {:induction false} DistinctIds(s: Heap)
    requires forall i, j :: 0 <= i < j < |s| ==> s[i].id != s[j].id
    ensures UniqueIds(multiset(s))
  {
    if s != [] {
      var n := |s| - 1;
      DistinctIds(s[..n]);
      assert s == s[..n] + [s[n]];
      forall x | x in multiset(s[..n]) ensures x.id != s[n].id {
        assert x in s[..n];
      }
    }
  }

  class Timer4Heap {
    var timerfdSettime: int
    var fheap: seq<TimerItem>
    var tfd: Arming.Timerfd
    ghost var heap: Heap
    ghost var items: set<TimerItem>
    ghost var handlers: set<Handler>
    ghost var nextId: nat

    /** The value of the heap is what its items say, in their places. */
    ghost predicate Valid()
      reads this, items
    {
      && |heap| == |fheap|
      && (forall i :: 0 <= i < |fheap| ==> fheap[i] in items && fheap[i].AsEntry() == heap[i])
      && (forall i, j :: 0 <= i < j < |fheap| ==> fheap[i] != fheap[j])
      && (forall a :: a in items ==> a.id < nextId && (a.eh != null ==> a.eh in handlers))
      && (forall a, b :: a in items && b in items && a.id == b.id ==> a == b)
      && (forall a, b :: a in handlers && b in handlers && a.id == b.id ==> a == b)
    }

    ghost function Arm(): Arming.State
      reads this
    {
      Arming.State(heap, timerfdSettime, tfd)
    }

    constructor ()
      ensures Valid() && Arm() == Arming.State([], 0, Arming.Disarmed) && items == {} && handlers == {}
    {
      timerfdSettime, fheap, tfd := 0, [], Arming.Disarmed;
      heap, items, handlers, nextId := [], {}, {}, 0;
    }

    method SwapEntries(i: nat, j: nat)
      requires Valid() && i < |fheap| && j < |fheap| && i != j
      modifies this`fheap, this`heap
      ensures Valid() && heap == Swap(old(heap), i, j)
      ensures forall x :: x in fheap <==> x in old(fheap)
    {
      ghost var before := fheap;
      fheap := fheap[i := fheap[j]][j := fheap[i]];
      heap := Swap(heap, i, j);
      assert fheap[i] == before[j] && fheap[j] == before[i];
      assert forall x | x in before :: exists k :: 0 <= k < |fheap| && fheap[k] == x by {
        forall x | x in before ensures exists k :: 0 <= k < |fheap| && fheap[k] == x {
          var k :| 0 <= k < |before| && before[k] == x;
          var k' := if k == i then j else if k == j then i else k;
          assert fheap[k'] == x;
        }
      }
    }

    method ShiftUp(start: nat)
      requires Valid() && start < |fheap|
      modifies this`fheap, this`heap
      ensures Valid() && heap == TimerHeap.ShiftUp(old(heap), start)
      ensures forall x :: x in fheap <==> x in old(fheap)
    {
      var index := start;
      while index > 0 && fheap[index].expiredAt < fheap[(index - 1) / 4].expiredAt
        invariant Valid() && 0 <= index < |fheap|
        invariant TimerHeap.ShiftUp(heap, index) == TimerHeap.ShiftUp(old(heap), start)
        invariant forall x :: x in fheap <==> x in old(fheap)
        decreases index
      {
        var parent := (index - 1) / 4;
        assert heap[index] == fheap[index].AsEntry() && heap[parent] == fheap[parent].AsEntry();
        SwapEntries(index, parent);
        index := parent;
      }
      if index > 0 {
        assert heap[index] == fheap[index].AsEntry() && heap[Parent(index)] == fheap[Parent(index)].AsEntry();
      }
    }

    /** Compares the expiry of two entries. */
    method Earlier(i: nat, j: nat) returns (r: bool)
      requires Valid() && i < |fheap| && j < |fheap|
      ensures r <==> heap[i].expiredAt < heap[j].expiredAt
    {
      assert heap[i] == fheap[i].AsEntry() && heap[j] == fheap[j].AsEntry();
      r := fheap[i].expiredAt < fheap[j].expiredAt;
    }

    method SmallestChild(index: nat) returns (smallest: nat)
      requires Valid() && index < |fheap| && 4 * index + 1 < |fheap|
      ensures smallest == SmallestFrom(heap, index, 4 * index + 1, ChildEnd(|heap|, index))
    {
      smallest := index;
      var childStart := 4 * index + 1;
      var childEnd := childStart + 4;
      var i := childStart;
      ghost var s, end := heap, ChildEnd(|heap|, index);
      while i < childEnd && i < |fheap|
        invariant childStart <= i <= end && smallest < |fheap|
        invariant SmallestFrom(s, smallest, i, end) == SmallestFrom(s, index, childStart, end)
      {
        var earlier := Earlier(i, smallest);
        if earlier {
          smallest := i;
        }
        i := i + 1;
      }
    }

    method ShiftDown(start: nat)
      requires Valid()
      modifies this`fheap, this`heap
      ensures Valid() && heap == TimerHeap.ShiftDown(old(heap), start)
      ensures forall x :: x in fheap <==> x in old(fheap)
    {
      var index := start;
      while true
        invariant Valid() && |fheap| == old(|fheap|)
        invariant TimerHeap.ShiftDown(heap, index) == TimerHeap.ShiftDown(old(heap), start)
        invariant forall x :: x in fheap <==> x in old(fheap)
        decreases |fheap| - index
      {
        if 4 * index + 1 < |fheap| {
          var smallest := SmallestChild(index);
          if smallest != index {
            SwapEntries(index, smallest);
            index := smallest;
          } else {
            break;
          }
        } else {
          break;
        }
      }
    }

    /** `append` and `shiftUp`. */
    method Push(ti: TimerItem)
      requires Valid() && ti in items && ti !in fheap
      modifies this`fheap, this`heap
      ensures Valid() && heap == Insert(old(heap), ti.AsEntry())
      ensures forall x :: x in fheap <==> x in old(fheap) || x == ti
    {
      fheap := fheap + [ti];
      heap := heap + [ti.AsEntry()];
      ShiftUp(|fheap| - 1);
    }

    method PopOne(now: int, errorVal: int) returns (item: TimerItem?, delta: int)
      requires Valid()
      modifies this`fheap, this`heap
      ensures Valid()
      ensures var (e, d, r) := TimerHeap.PopOne(old(heap), now, errorVal);
              && heap == r && delta == d
              && (item == null <==> e.None?)
              && (item != null ==> item in old(fheap) && item in items && item.AsEntry() == e.value)
      ensures forall x :: x in fheap <==> x in old(fheap) && x != item
    {
      if |fheap| == 0 {
        return null, 0;
      }
      var min := fheap[0];
      assert min.AsEntry() == heap[0];
      delta := min.expiredAt - now;
      if delta > errorVal {
        return null, delta;
      }
      var last := |fheap| - 1;
      RemoveRoot();
      ShiftDown(0);
      return min, 0;
    }

    /** The last entry takes the place of the root. */
    method RemoveRoot()
      requires Valid() && |fheap| > 0
      modifies this`fheap, this`heap
      ensures Valid() && heap == old(heap)[0 := old(heap)[|old(heap)| - 1]][..|old(heap)| - 1]
      ensures forall x :: x in fheap <==> x in old(fheap) && x != old(fheap)[0]
    {
      var last := |fheap| - 1;
      ghost var before := fheap;
      fheap := fheap[0 := fheap[last]];
      fheap := fheap[..last];
      heap := heap[0 := heap[last]][..last];
      forall x | x in before && x != before[0] ensures x in fheap {
        var k :| 0 <= k < |before| && before[k] == x;
        assert x == fheap[if k == last then 0 else k];
      }
    }

    method AdjustTimerfd(u: nat, delay: int)
      modifies this`tfd
      ensures tfd == Arming.Adjust(u, delay)
    {
      var d := delay * Arming.MS;
      if d < 1 {
        d := 1;
      }
      tfd := Arming.Armed(u + d);
    }

    /** Times in nanoseconds: `t` is the reading of the clock, `u` when the timerfd is set. */
    method Schedule(eh: Handler, delay: int, interval: int, t: nat, u: nat) returns (ok: bool)
      requires Valid() && (forall h :: h in handlers && h.id == eh.id ==> h == eh)
      modifies this, eh
      ensures Valid()
      ensures ok <==> delay >= 0 && interval >= 0 && old(eh.ti) == null
      ensures !ok ==> unchanged(this) && unchanged(eh)
      ensures ok ==>
                && eh.ti != null && fresh(eh.ti) && eh.ti.eh == eh && eh.ti.id == old(nextId)
                && items == old(items) + {eh.ti} && handlers == old(handlers) + {eh}
                && heap == Insert(old(heap), Entry(old(nextId), Arming.Millis(t) + delay, interval, Some(eh.id)))
                && Arm() == Arming.Rearm(old(Arm()), heap, t, u)
    {
      if delay < 0 || interval < 0 {
        return false;
      }
      if eh.ti != null {
        return false;
      }
      var now := Arming.Millis(t);
      var ti := NewItem(now + delay, interval, eh);
      eh.ti := ti;
      ArmForRoot(t, u, now);
      return true;
    }

    /** A new item on the heap, not yet known to its handler. */
    method NewItem(expiredAt: int, interval: int, eh: Handler) returns (ti: TimerItem)
      requires Valid() && (forall h :: h in handlers && h.id == eh.id ==> h == eh)
      modifies this`fheap, this`heap, this`items, this`handlers, this`nextId
      ensures Valid() && fresh(ti) && ti.eh == eh && ti.id == old(nextId) && ti in fheap
      ensures items == old(items) + {ti} && handlers == old(handlers) + {eh}
      ensures heap == Insert(old(heap), Entry(old(nextId), expiredAt, interval, Some(eh.id)))
    {
      ti := new TimerItem(nextId, expiredAt, interval, eh);
      items := items + {ti};
      handlers := handlers + {eh};
      nextId := nextId + 1;
      Push(ti);
    }

    /** The root decides whether the kernel timer is set again (timer_4heap.go:88-92). */
    method ArmForRoot(t: nat, u: nat, now: int)
      requires Valid() && heap != [] && now == Arming.Millis(t)
      modifies this`tfd, this`timerfdSettime
      ensures Arm() == Arming.Rearm(old(Arm()), heap, t, u)
    {
      var min := fheap[0];
      assert min.AsEntry() == heap[0];
      if min.expiredAt != timerfdSettime {
        AdjustTimerfd(u, min.expiredAt - now);
        timerfdSettime := min.expiredAt;
      }
    }

    /** The item is rewritten where it stands, without looking for it in the heap. */
    method Cancel(eh: Handler)
      requires Valid() && (eh.ti != null ==> eh.ti in items)
      modifies this`heap, eh, eh.ti
      ensures Valid() && eh.ti == null
      ensures old(eh.ti) == null ==> heap == old(heap)
      ensures old(eh.ti) != null ==>
                && heap == TimerHeap.Cancel(old(heap), old(eh.ti).id)
                && old(eh.ti).AsEntry() == Entry(old(eh.ti).id, 1, old(eh.ti.interval), None)
    {
      var ti := eh.ti;
      if ti == null {
        return;
      }
      ti.eh := null;
      ti.expiredAt := 1;
      heap := TimerHeap.Cancel(heap, ti.id);
      eh.ti := null;
    }

    /** Handler `h` was fired and its timer let go. */
    ghost static predicate Released(fired: seq<Entry>, h: nat, cb: Callbacks) {
      exists i :: 0 <= i < |fired| && fired[i].eh == Some(h) && !(cb(h) && fired[i].interval > 0)
    }

    /** The items on the heap are distinct, and so are their ids. */
    lemma IdsAreUnique()
      requires Valid()
      ensures UniqueIds(multiset(heap))
    {
      forall i, j | 0 <= i < j < |heap| ensures heap[i].id != heap[j].id {
        assert fheap[i].AsEntry() == heap[i] && fheap[j].AsEntry() == heap[j];
      }
      DistinctIds(heap);
    }

    /** The answer of the callback decides whether the item goes back on the heap or its
        handler lets go of it (timer_4heap.go:132-138). */
    method Settle(item: TimerItem, now: int, cb: Callbacks)
      requires Valid() && item in items && item !in fheap && item.eh != null
      modifies this`fheap, this`heap, item`expiredAt, item.eh
      ensures Valid()
      ensures heap == TimerExpiry.Settle(old(heap), old(item.AsEntry()), now, cb)
      ensures item.eh.ti == if Renews(old(item.AsEntry()), cb) then old(item.eh.ti) else null
    {
      if cb(item.eh.id) && item.interval > 0 {
        item.expiredAt := now + item.interval;
        Push(item);
      } else {
        item.eh.ti := null;
      }
    }

    /** One round of the loop of `handleExpired`; `e` is the entry it took off the heap. */
    method ExpireOne(now: int, cb: Callbacks) returns (more: bool, delta: int, ghost e: Option<Entry>)
      requires Valid()
      modifies this`fheap, this`heap, items, handlers
      ensures Valid() && more == e.Some?
      ensures e.Some? ==> RoundOf(old(heap), e.value, heap, now, cb)
      ensures e.None? ==> heap == old(heap) && TimerHeap.PopOne(heap, now, SLACK) == (None, delta, heap)
      ensures forall h :: h in handlers ==>
                h.ti == if e.Some? && e.value.eh == Some(h.id) && !Renews(e.value, cb) then null else old(h.ti)
    {
      var item;
      item, delta := PopOne(now, SLACK);
      if item == null {
        return false, delta, None;
      }
      e := Some(item.AsEntry());
      more := true;
      if item.eh != null { // a cancelled item has no handler
        Settle(item, now, cb);
      }
    }

    lemma ReleasedOne(fired: seq<Entry>, e: Entry, h: nat, cb: Callbacks)
      ensures Released(fired + [e], h, cb) <==> Released(fired, h, cb) || (e.eh == Some(h) && !(cb(h) && e.interval > 0))
    {
      var all := fired + [e];
      if Released(fired, h, cb) {
        var i :| 0 <= i < |fired| && fired[i].eh == Some(h) && !(cb(h) && fired[i].interval > 0);
        assert all[i] == fired[i];
      }
      assert all[|fired|] == e;
    }

    /** For callbacks that only answer; `cb` gives the answer by handler. */
    method HandleExpired(now: int, cb: Callbacks) returns (delta: int, ghost fired: seq<Entry>)
      requires Valid() && NoSpin(heap, now, cb)
      modifies this`fheap, this`heap, items, handlers
      ensures Valid()
      ensures (fired, heap, delta) == Expire(old(heap), now, cb)
      ensures forall e :: e in fired ==> e.Live() && Answered(e, multiset(heap), now, cb)
      ensures forall h :: h in handlers ==>
                h.ti == if exists i :: 0 <= i < |fired| && fired[i].eh == Some(h.id) && !(cb(h.id) && fired[i].interval > 0)
                        then null else old(h.ti)
    {
      IdsAreUnique();
      forall e | e in Expire(heap, now, cb).0 ensures e.Live() && Answered(e, multiset(Expire(heap, now, cb).1), now, cb) {
        AnswerDecides(heap, now, cb, e);
      }
      fired := [];
      if |fheap| == 0 {
        return 0, [];
      }
      delta := -1;
      ghost var start := heap;
      var more := true;
      assert [] + Expire(heap, now, cb).0 == Expire(heap, now, cb).0;
      while more
        invariant Valid() && NoSpin(heap, now, cb)
        invariant Expire(start, now, cb) == (fired + Expire(heap, now, cb).0, Expire(heap, now, cb).1, Expire(heap, now, cb).2)
        invariant !more ==> Expire(heap, now, cb) == ([], heap, delta)
        invariant forall h :: h in handlers ==> h.ti == if Released(fired, h.id, cb) then null else old(h.ti)
        decreases more, |DueOf(heap, now)|
      {
        ghost var before, sofar := heap, fired;
        ghost var e;
        more, delta, e := ExpireOne(now, cb);
        if e.Some? {
          ExpireStep(before, now, cb, e.value, heap, fired);
          if e.value.Live() {
            fired := fired + [e.value];
          }
          forall h | h in handlers ensures h.ti == if Released(fired, h.id, cb) then null else old(h.ti) {
            ReleasedOne(sofar, e.value, h.id, cb);
          }
        }
      }
      assert fired + [] == fired;
    }

    /** The clock is read at `t`, before the callbacks; the timerfd is set at `u`, after them. */
    method OnRead(t: nat, u: nat, cb: Callbacks) returns (ghost fired: seq<Entry>)
      requires Valid() && NoSpin(heap, Arming.Millis(t), cb)
      modifies this, items, handlers
      ensures Valid() && timerfdSettime == old(timerfdSettime) && handlers == old(handlers)
      ensures fired == Expire(old(heap), Arming.Millis(t), cb).0
      ensures heap == Expire(old(heap), Arming.Millis(t), cb).1
      ensures forall e :: e in fired ==> e.Live() && Answered(e, multiset(heap), Arming.Millis(t), cb)
      ensures forall h :: h in old(handlers) ==>
                h.ti == if exists i :: 0 <= i < |fired| && fired[i].eh == Some(h.id) && !(cb(h.id) && fired[i].interval > 0)
                        then null else old(h.ti)
      ensures tfd == Arming.AfterRead(u, Expire(old(heap), Arming.Millis(t), cb).2)
    {
      tfd := Arming.Disarmed; // the one-shot timer has gone off and is read
      var delay;
      delay, fired := HandleExpired(Arming.Millis(t), cb);
      if delay > 0 {
        AdjustTimerfd(u, delay);
      }
    }
  }
}
