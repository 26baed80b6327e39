/** From `AsyncWrite` to the wire: the hand-off of module `Handoff`, delivering buffers to the
    handles of module `WritePath`, with every interleaving of producers, poller, closing and
    reopened handles, and every pattern of short and failed writes. */
module EndToEnd {
  import opened Basics
  import opened WritePath
  import opened WriteRuns
  import Handoff

  /** async_write.go:17-21: the handle and its buffer. */
  datatype Item = Item(h: nat, bf: seq<Byte>)

  type Hand = Handoff.State<Item>

  /** The hand-off of one poller, and the handles it serves. */
  datatype System = System(hand: Hand, handles: map<nat, Handle>)

  datatype Action =
    | Share(a: Handoff.Action<Item>, rets: seq<Ret>)
    | OnWrite(h: nat, rets: seq<Ret>)
    | Close(h: nat)
    | Reopen(h: nat, fd: int)

  /** Buffers are pushed for known handles; the poller flushes a handle when it is at rest; a
      closed handle may be given to a new connection. */
  ghost predicate Enabled(s: System, a: Action, k: nat) {
    match a
    case Share(b, _) =>
      && Handoff.Enabled(s.hand, b, k)
      && (b.Enqueue? ==> b.x.h in s.handles)
      && (b.Pop? ==> s.hand.readq[0].h in s.handles)
    case OnWrite(h, _) => h in s.handles && ValidQ(s.handles[h].q) && s.hand.poller.Rest?
    case Close(h) => h in s.handles
    case Reopen(h, fd) => h in s.handles && !Open(s.handles[h]) && fd >= 1
  }

  /** Popping an item is delivering it: its handle does the ordered write. */
  ghost function Next(s: System, a: Action, k: nat): System
    requires Enabled(s, a, k)
  {
    match a
    case Share(b, rets) =>
      var t := s.(hand := Handoff.Next(s.hand, b, k));
      if b.Pop? then
        var item := s.hand.readq[0];
        t.(handles := s.handles[item.h := OrderedWrite(s.handles[item.h], Fresh(item.bf), rets).0])
      else t
    case OnWrite(h, rets) => s.(handles := s.handles[h := Flush(s.handles[h], rets).0])
    case Close(h) => s.(handles := s.handles[h := Destroy(s.handles[h])])
    case Reopen(h, fd) => s.(handles := s.handles[h := Reused(s.handles[h], fd)])
  }

  /** The bytes a sequence of items has for handle `h`, in order. */
  ghost function BytesFor(items: seq<Item>, h: nat): seq<Byte> {
    if items == [] then []
    else
      var n := |items| - 1;
      BytesFor(items[..n], h) + (if items[n].h == h then items[n].bf else [])
  }

  lemma {:induction false} BytesForConcat(a: seq<Item>, b: seq<Item>, h: nat)
    ensures BytesFor(a + b, h) == BytesFor(a, h) + BytesFor(b, h)
    decreases |b|
  {
    if b == [] {
      assert a + b == a;
    } else {
      var n := |b| - 1;
      assert (a + b)[..|a| + n] == a + b[..n];
      BytesForConcat(a, b[..n], h);
    }
  }

  lemma BytesForOne(x: Item, h: nat)
    ensures BytesFor([x], h) == if x.h == h then x.bf else []
  {
    assert [x][..0] == [];
  }

  /** The items addressed to handle `h`. */
  ghost function ItemsFor(items: seq<Item>, h: nat): seq<Item> {
    if items == [] then []
    else
      var n := |items| - 1;
      ItemsFor(items[..n], h) + (if items[n].h == h then [items[n]] else [])
  }

  lemma {:induction false} ItemsForConcat(a: seq<Item>, b: seq<Item>, h: nat)
    ensures ItemsFor(a + b, h) == ItemsFor(a, h) + ItemsFor(b, h)
    decreases |b|
  {
    if b == [] {
      assert a + b == a;
    } else {
      var n := |b| - 1;
      assert (a + b)[..|a| + n] == a + b[..n];
      ItemsForConcat(a, b[..n], h);
    }
  }

  /** Nothing is addressed to handle `h`. */
  ghost predicate NothingFor(items: seq<Item>, h: nat) {
    forall i :: 0 <= i < |items| ==> items[i].h != h
  }

  lemma {:induction false} NoItemsIff(items: seq<Item>, h: nat)
    ensures ItemsFor(items, h) == [] <==> NothingFor(items, h)
  {
    if items != [] {
      var n := |items| - 1;
      NoItemsIff(items[..n], h);
      assert items == items[..n] + [items[n]];
    }
  }

  // ----- The invariant -----

  /** A closed handle has dropped its queue. */
  ghost predicate Kept(h: Handle) { ValidQ(h.q) && (!Open(h) ==> h.q == []) }

  ghost predicate Inv(s: System) {
    && Handoff.Inv(s.hand)
    && (forall x :: x in s.hand.enqueued ==> x.h in s.handles)
    && (forall id :: id in s.handles ==> Kept(s.handles[id]))
  }

  lemma PopKeepsInv(s: System, rets: seq<Ret>, k: nat)
    requires Inv(s) && Enabled(s, Share(Handoff.Pop, rets), k)
    ensures Inv(Next(s, Share(Handoff.Pop, rets), k))
  {
    Handoff.StepKeepsInv(s.hand, Handoff.Pop, k);
    var item := s.hand.readq[0];
    var h := s.handles[item.h];
    assert Kept(h);
    if Open(h) {
      OrderedWriteConserves(h, Fresh(item.bf), rets);
    }
  }

  lemma NextKeepsInv(s: System, a: Action, k: nat)
    requires Inv(s) && Enabled(s, a, k)
    ensures Inv(Next(s, a, k))
  {
    match a
    case Share(b, rets) =>
      if b.Pop? {
        PopKeepsInv(s, rets, k);
      } else {
        Handoff.StepKeepsInv(s.hand, b, k);
      }
    case OnWrite(h, rets) =>
      assert Kept(s.handles[h]);
      FlushConserves(s.handles[h], rets);
    case Close(h) =>
    case Reopen(h, fd) =>
      assert Kept(s.handles[h]);
  }

  // ----- One connection of a handle -----

  /** Handle `id` is open, and its stream is what has been delivered for it after the first `d`
      items. */
  ghost predicate Serves(s: System, id: nat, d: nat) {
    && id in s.handles && Open(s.handles[id]) && ValidQ(s.handles[id].q)
    && d <= |s.hand.delivered|
    && Stream(s.handles[id]) == BytesFor(s.hand.delivered[d..], id)
  }

  lemma DeliveryServes(h: Handle, id: nat, delivered: seq<Item>, d: nat, item: Item, rets: seq<Ret>)
    requires ValidQ(h.q) && Open(h) && d <= |delivered| && Stream(h) == BytesFor(delivered[d..], id)
    ensures var h' := if item.h == id then OrderedWrite(h, Fresh(item.bf), rets).0 else h;
            Open(h') && ValidQ(h'.q) && Stream(h') == BytesFor((delivered + [item])[d..], id)
  {
    assert (delivered + [item])[d..] == delivered[d..] + [item];
    BytesForConcat(delivered[d..], [item], id);
    BytesForOne(item, id);
    if item.h == id {
      OrderedWriteConserves(h, Fresh(item.bf), rets);
      assert Fresh(item.bf).Left() == item.bf;
    }
  }

  lemma StepServes(s: System, a: Action, k: nat, id: nat, d: nat)
    requires Inv(s) && Enabled(s, a, k) && a != Close(id) && Serves(s, id, d)
    ensures Serves(Next(s, a, k), id, d)
  {
    match a
    case Share(b, rets) =>
      if b.Pop? {
        DeliveryServes(s.handles[id], id, s.hand.delivered, d, s.hand.readq[0], rets);
      }
    case OnWrite(h, rets) =>
      FlushConserves(s.handles[h], rets);
    case _ =>
  }

  /** The bookkeeping of an open handle stays in order, too. */
  lemma StepKeepsBookkeeping(s: System, a: Action, k: nat, id: nat)
    requires Inv(s) && Enabled(s, a, k) && a != Close(id) && id in s.handles && WriteRuns.Inv(s.handles[id])
    ensures WriteRuns.Inv(Next(s, a, k).handles[id])
  {
    var h := s.handles[id];
    match a
    case Share(b, rets) =>
      if b.Pop? {
        StepKeepsInv(h, DoOrdered(s.hand.readq[0].bf, rets));
      }
    case OnWrite(_, rets) =>
      StepKeepsInv(h, DoFlush(rets));
    case _ =>
  }

  // ----- Runs -----

  /** The `i`-th action leads from the `i`-th state to the next. */
  ghost predicate StepAt(trace: seq<System>, acts: seq<Action>, k: nat, i: nat)
    requires i < |acts| < |trace|
  {
    Enabled(trace[i], acts[i], k) && trace[i + 1] == Next(trace[i], acts[i], k)
  }

  ghost predicate IsRun(trace: seq<System>, acts: seq<Action>, k: nat) {
    && |trace| == |acts| + 1
    && (forall i :: 0 <= i < |acts| ==> StepAt(trace, acts, k, i))
  }

  /** Nothing pushed yet, every handle just registered for reading. */
  ghost predicate IsStart(s: System) {
    && s.hand == Handoff.Init()
    && (forall id :: id in s.handles ==> Open(s.handles[id]) && s.handles[id] == Registered(s.handles[id].fd))
  }

  lemma {:induction false} RunKeepsInv(trace: seq<System>, acts: seq<Action>, k: nat, n: nat)
    requires IsRun(trace, acts, k) && IsStart(trace[0]) && n <= |acts|
    ensures Inv(trace[n])
  {
    if n == 0 {
      Handoff.InitInv<Item>();
    } else {
      RunKeepsInv(trace, acts, k, n - 1);
      assert StepAt(trace, acts, k, n - 1);
      NextKeepsInv(trace[n - 1], acts[n - 1], k);
    }
  }

  lemma RunStaysOrdered(trace: seq<System>, acts: seq<Action>, k: nat, n: nat)
    requires IsRun(trace, acts, k) && IsStart(trace[0]) && n <= |acts|
    ensures Handoff.Ordered(trace[n].hand)
  {
    RunKeepsInv(trace, acts, k, n);
  }

  /** A connection of handle `id` begins in state `m`, and is not closed before state `n`. */
  ghost predicate Connection(acts: seq<Action>, m: nat, n: nat, id: nat) {
    && m <= n <= |acts|
    && (m == 0 || (acts[m - 1].Reopen? && acts[m - 1].h == id))
    && (forall i :: m <= i < n ==> acts[i] != Close(id))
  }

  /** Nothing that was delivered or enqueued is taken back. */
  ghost predicate Grown(s: System, t: System) {
    s.hand.delivered <= t.hand.delivered && s.hand.enqueued <= t.hand.enqueued
  }

  lemma NextGrows(s: System, a: Action, k: nat)
    requires Enabled(s, a, k)
    ensures Grown(s, Next(s, a, k))
  {
  }

  lemma GrownOn(s: System, t: System, u: System)
    requires Grown(s, t) && Grown(t, u)
    ensures Grown(s, u)
  {
  }

  lemma {:induction false} RunGrows(trace: seq<System>, acts: seq<Action>, k: nat, m: nat, n: nat)
    requires IsRun(trace, acts, k) && m <= n <= |acts|
    ensures Grown(trace[m], trace[n])
    decreases n
  {
    if n > m {
      RunGrows(trace, acts, k, m, n - 1);
      assert StepAt(trace, acts, k, n - 1);
      NextGrows(trace[n - 1], acts[n - 1], k);
      GrownOn(trace[m], trace[n - 1], trace[n]);
    }
  }

  lemma ReopenServes(s: System, k: nat, id: nat, fd: int)
    requires Inv(s) && Enabled(s, Reopen(id, fd), k)
    ensures var t := Next(s, Reopen(id, fd), k); Serves(t, id, |t.hand.delivered|)
  {
    assert Kept(s.handles[id]);
  }

  lemma ConnectionBegins(trace: seq<System>, acts: seq<Action>, k: nat, m: nat, id: nat)
    requires IsRun(trace, acts, k) && IsStart(trace[0]) && Connection(acts, m, m, id) && id in trace[m].handles
    ensures Serves(trace[m], id, |trace[m].hand.delivered|)
  {
    if m > 0 {
      RunKeepsInv(trace, acts, k, m - 1);
      assert StepAt(trace, acts, k, m - 1);
      ReopenServes(trace[m - 1], k, id, acts[m - 1].fd);
    }
  }

  lemma {:induction false} ConnectionServes(trace: seq<System>, acts: seq<Action>, k: nat, m: nat, n: nat, id: nat)
    requires IsRun(trace, acts, k) && IsStart(trace[0]) && Connection(acts, m, n, id) && id in trace[m].handles
    ensures Serves(trace[n], id, |trace[m].hand.delivered|)
    decreases n
  {
    if n == m {
      ConnectionBegins(trace, acts, k, m, id);
    } else {
      ConnectionServes(trace, acts, k, m, n - 1, id);
      RunKeepsInv(trace, acts, k, n - 1);
      assert StepAt(trace, acts, k, n - 1);
      StepServes(trace[n - 1], acts[n - 1], k, id, |trace[m].hand.delivered|);
    }
  }

  /** What handle `id` has sent, has pending, and is still to be handed over. */
  ghost function Carried(s: System, id: nat): seq<Byte>
    requires id in s.handles && ValidQ(s.handles[id].q)
  {
    Stream(s.handles[id]) + BytesFor(s.hand.readq, id) + BytesFor(s.hand.writeq, id)
  }

  /** The buffers of AsyncWrite calls for `id` that came after state `s`, as of state `t`. */
  ghost function PushedSince(s: System, t: System, id: nat): seq<Byte>
    requires s.hand.enqueued <= t.hand.enqueued
  {
    BytesFor(t.hand.enqueued[|s.hand.enqueued|..], id)
  }

  /** What the hand-off still holds for `id`. */
  ghost function InHandoff(s: System, id: nat): seq<Byte> { BytesFor(s.hand.readq + s.hand.writeq, id) }

  /** From state `s` on, what has left the hand-off and what is still in it are what was in it at `s`
      and what has come since. */
  lemma CutHandoff(s: Hand, t: Hand)
    requires Handoff.Ordered(s) && Handoff.Ordered(t) && s.delivered <= t.delivered && s.enqueued <= t.enqueued
    ensures t.delivered[|s.delivered|..] + t.readq + t.writeq == s.readq + s.writeq + t.enqueued[|s.enqueued|..]
  {
    var d := |s.delivered|;
    assert t.enqueued[d..] == t.delivered[d..] + t.readq + t.writeq;
    assert s.enqueued[d..] == s.readq + s.writeq;
    assert t.enqueued == s.enqueued + t.enqueued[|s.enqueued|..];
    assert t.enqueued[d..] == s.enqueued[d..] + t.enqueued[|s.enqueued|..];
  }

  lemma CutEnqueued(s: Hand, t: Hand, id: nat)
    requires Handoff.Ordered(s) && Handoff.Ordered(t) && s.delivered <= t.delivered && s.enqueued <= t.enqueued
    ensures BytesFor(t.delivered[|s.delivered|..], id) + BytesFor(t.readq, id) + BytesFor(t.writeq, id)
            == BytesFor(s.readq + s.writeq, id) + BytesFor(t.enqueued[|s.enqueued|..], id)
  {
    var d := |s.delivered|;
    CutHandoff(s, t);
    BytesForConcat(t.delivered[d..] + t.readq, t.writeq, id);
    BytesForConcat(t.delivered[d..], t.readq, id);
    BytesForConcat(s.readq + s.writeq, t.enqueued[|s.enqueued|..], id);
  }

  /** End to end, for every connection of every handle: the bytes on the wire, in its queue, in
      `readq` and in `writeq` are together what the hand-off held for the handle when the
      connection began, followed by the buffers of its AsyncWrite calls, in the order of the
      mutex.  The first connection begins with an empty hand-off. */
  lemma AsyncWritesReachTheWireInOrder(trace: seq<System>, acts: seq<Action>, k: nat, m: nat, n: nat, id: nat)
    requires IsRun(trace, acts, k) && IsStart(trace[0]) && Connection(acts, m, n, id) && id in trace[m].handles
    ensures trace[m].hand.enqueued <= trace[n].hand.enqueued
    ensures id in trace[n].handles && Open(trace[n].handles[id]) && ValidQ(trace[n].handles[id].q)
    ensures Carried(trace[n], id) == InHandoff(trace[m], id) + PushedSince(trace[m], trace[n], id)
    ensures trace[n].handles[id].wire <= InHandoff(trace[m], id) + PushedSince(trace[m], trace[n], id)
    ensures m == 0 ==> InHandoff(trace[m], id) == [] && PushedSince(trace[m], trace[n], id) == BytesFor(trace[n].hand.enqueued, id)
  {
    RunStaysOrdered(trace, acts, k, m);
    RunStaysOrdered(trace, acts, k, n);
    RunGrows(trace, acts, k, m, n);
    ConnectionServes(trace, acts, k, m, n, id);
    CutEnqueued(trace[m].hand, trace[n].hand, id);
  }

  /** With both queues drained and nothing pending, all of it is out. */
  lemma QuietMeansAllSent(trace: seq<System>, acts: seq<Action>, k: nat, m: nat, n: nat, id: nat)
    requires IsRun(trace, acts, k) && IsStart(trace[0]) && Connection(acts, m, n, id) && id in trace[m].handles
    requires trace[n].hand.readq == [] && trace[n].hand.writeq == []
    requires id in trace[n].handles && trace[n].handles[id].q == []
    ensures trace[m].hand.enqueued <= trace[n].hand.enqueued
    ensures trace[n].handles[id].wire == InHandoff(trace[m], id) + PushedSince(trace[m], trace[n], id)
    ensures m == 0 ==> trace[n].handles[id].wire == BytesFor(trace[n].hand.enqueued, id)
  {
    AsyncWritesReachTheWireInOrder(trace, acts, k, m, n, id);
    assert Pending([]) == [];
  }

  // ----- Handles used again -----

  /** The handle is closed by step `c` and given to a new connection by step `m`. */
  ghost predicate ReusedBetween(acts: seq<Action>, c: nat, m: nat, id: nat) {
    && c < m < |acts|
    && acts[c] == Close(id)
    && acts[m].Reopen? && acts[m].h == id
    && (forall i :: c < i < m ==> !(acts[i].Reopen? && acts[i].h == id))
  }

  /** A closed handle waits unchanged. */
  lemma {:induction false} ClosedHandleWaits(trace: seq<System>, acts: seq<Action>, k: nat, c: nat, n: nat, id: nat)
    requires IsRun(trace, acts, k) && IsStart(trace[0]) && c < n <= |acts| && acts[c] == Close(id)
    requires forall i :: c < i < n ==> !(acts[i].Reopen? && acts[i].h == id)
    ensures id in trace[c].handles && id in trace[n].handles
    ensures trace[n].handles[id] == Destroy(trace[c].handles[id]) && !Open(trace[n].handles[id])
    decreases n
  {
    if n > c + 1 {
      ClosedHandleWaits(trace, acts, k, c, n - 1, id);
    }
    RunKeepsInv(trace, acts, k, n - 1);
    assert StepAt(trace, acts, k, n - 1);
    assert Kept(trace[n - 1].handles[id]);
  }

  /** The buffers that have reached handle `id` since state `s`, or still will. */
  ghost function Served(s: System, t: System, id: nat): seq<Item>
    requires |s.hand.delivered| <= |t.hand.delivered|
  {
    ItemsFor(t.hand.delivered[|s.hand.delivered|..] + t.hand.readq + t.hand.writeq, id)
  }

  /** The buffers pushed for `id` since state `s`. */
  ghost function Pushed(s: System, t: System, id: nat): seq<Item>
    requires |s.hand.enqueued| <= |t.hand.enqueued|
  {
    ItemsFor(t.hand.enqueued[|s.hand.enqueued|..], id)
  }

  lemma OwnBuffersIff(s: System, t: System, id: nat)
    requires Handoff.Ordered(s.hand) && Handoff.Ordered(t.hand) && Grown(s, t)
    ensures Served(s, t, id) == Pushed(s, t, id) <==> NothingFor(s.hand.readq + s.hand.writeq, id)
  {
    CutHandoff(s.hand, t.hand);
    var held, pushed := s.hand.readq + s.hand.writeq, t.hand.enqueued[|s.hand.enqueued|..];
    ItemsForConcat(held, pushed, id);
    NoItemsIff(held, id);
    assert |ItemsFor(held, id) + ItemsFor(pushed, id)| == |ItemsFor(held, id)| + |ItemsFor(pushed, id)|;
    assert ItemsFor(held, id) == [] ==> ItemsFor(held, id) + ItemsFor(pushed, id) == ItemsFor(pushed, id);
  }

  /** Reuse is sound, in that the new connection starts in order and gets no other buffers than those
      pushed after it began, exactly when at the close the flag was down and the counter 0, and at
      the reopening neither `readq` nor `writeq` had an item for the handle, be it empty.  The bytes
      it carries are its own exactly when they had no bytes for it. */
  lemma ReuseSoundIff(trace: seq<System>, acts: seq<Action>, k: nat, c: nat, m: nat, n: nat, id: nat)
    requires IsRun(trace, acts, k) && IsStart(trace[0])
    requires ReusedBetween(acts, c, m, id) && Connection(acts, m + 1, n, id)
    ensures id in trace[c].handles && id in trace[m + 1].handles && id in trace[n].handles
    ensures Grown(trace[m + 1], trace[n])
    ensures WriteRuns.Inv(trace[m + 1].handles[id]) && Served(trace[m + 1], trace[n], id) == Pushed(trace[m + 1], trace[n], id)
            <==> && !trace[c].handles[id].waiting && trace[c].handles[id].size == 0
                 && NothingFor(trace[m].hand.readq + trace[m].hand.writeq, id)
    ensures ValidQ(trace[n].handles[id].q)
    ensures Carried(trace[n], id) == PushedSince(trace[m + 1], trace[n], id) <==> InHandoff(trace[m], id) == []
  {
    ClosedHandleWaits(trace, acts, k, c, m, id);
    assert StepAt(trace, acts, k, m);
    ReusedInOrderIff(trace[c].handles[id], acts[m].fd);
    RunStaysOrdered(trace, acts, k, m + 1);
    RunStaysOrdered(trace, acts, k, n);
    RunGrows(trace, acts, k, m + 1, n);
    OwnBuffersIff(trace[m + 1], trace[n], id);
    AsyncWritesReachTheWireInOrder(trace, acts, k, m + 1, n, id);
    var before, after := InHandoff(trace[m], id), PushedSince(trace[m + 1], trace[n], id);
    assert |before + after| == |before| + |after|;
    assert [] + after == after;
  }

  /** One more step at the end of a run. */
  lemma Extend(trace: seq<System>, acts: seq<Action>, k: nat, a: Action) returns (trace': seq<System>, acts': seq<Action>)
    requires IsRun(trace, acts, k) && Enabled(trace[|acts|], a, k)
    ensures IsRun(trace', acts', k) && acts' == acts + [a] && trace' == trace + [Next(trace[|acts|], a, k)]
  {
    acts', trace' := acts + [a], trace + [Next(trace[|acts|], a, k)];
    forall i | 0 <= i < |acts'| ensures StepAt(trace', acts', k, i) {
      assert i < |acts| ==> StepAt(trace, acts, k, i);
    }
  }

  /** The hand-off after a first push, and after the pop of its item. */
  function AfterPush(x: Item): Hand {
    Handoff.State([], [x], 1, 1, map[], Handoff.Rest, [], [x], [Handoff.Won], 0, 0, false)
  }

  function AfterPop(x: Item): Hand {
    Handoff.State([], [], 1, 1, map[], Handoff.Draining(1), [x], [x], [Handoff.Won], 1, 0, false)
  }

  lemma FirstPush(x: Item, handles: map<nat, Handle>, k: nat) returns (trace: seq<System>, acts: seq<Action>)
    requires x.h in handles
    ensures IsRun(trace, acts, k) && |acts| == 3 && trace[0] == System(Handoff.Init(), handles)
    ensures trace[3] == System(AfterPush(x), handles)
  {
    trace, acts := [System(Handoff.Init(), handles)], [];
    trace, acts := Extend(trace, acts, k, Share(Handoff.Enqueue(0, x), []));
    trace, acts := Extend(trace, acts, k, Share(Handoff.TryCas(0), []));
    trace, acts := Extend(trace, acts, k, Share(Handoff.Signal(0), []));
    assert trace[3].hand.producers == map[];
  }

  lemma FirstPop(trace: seq<System>, acts: seq<Action>, k: nat, x: Item, handles: map<nat, Handle>, rets: seq<Ret>)
      returns (trace': seq<System>, acts': seq<Action>)
    requires IsRun(trace, acts, k) && trace[|acts|] == System(AfterPush(x), handles) && x.h in handles && k >= 1
    ensures IsRun(trace', acts', k) && |acts'| == |acts| + 3 && trace <= trace' && acts <= acts'
    ensures forall i :: |acts| <= i < |acts'| ==> acts'[i].Share?
    ensures trace'[|acts'|]
            == System(AfterPop(x), handles[x.h := OrderedWrite(handles[x.h], Fresh(x.bf), rets).0])
  {
    trace', acts' := Extend(trace, acts, k, Share(Handoff.Wake, []));
    trace', acts' := Extend(trace', acts', k, Share(Handoff.Swap, []));
    trace', acts' := Extend(trace', acts', k, Share(Handoff.Pop, rets));
  }

  /** The run in which a buffer is pushed for a connection that is closed, and its handle reopened,
      before the poller gets to it; the kernel takes whatever it is given. */
  lemma OldBufferRun(bf: seq<Byte>, fd: int, fd': int, k: nat) returns (trace: seq<System>, acts: seq<Action>)
    requires fd >= 1 && fd' >= 1 && k >= 1
    ensures IsRun(trace, acts, k) && |acts| == 8 && IsStart(trace[0])
    ensures ReusedBetween(acts, 3, 4, 0) && Connection(acts, 5, 8, 0)
    ensures 0 in trace[3].handles && WriteRuns.Inv(trace[3].handles[0]) && trace[3].handles[0].q == []
    ensures trace[8].hand.enqueued == trace[5].hand.enqueued
    ensures var h := Reused(Destroy(Registered(fd)), fd');
            0 in trace[8].handles && trace[8].handles[0] == OrderedWrite(h, Fresh(bf), [Accept(|bf|)]).0
  {
    var x := Item(0, bf);
    trace, acts := FirstPush(x, map[0 := Registered(fd)], k);
    trace, acts := Extend(trace, acts, k, Close(0));
    trace, acts := Extend(trace, acts, k, Reopen(0, fd'));
    var h := Reused(Destroy(Registered(fd)), fd');
    assert trace[5] == System(AfterPush(x), map[0 := h]);
    trace, acts := FirstPop(trace, acts, k, x, map[0 := h], [Accept(|bf|)]);
    RegisteredInv(fd);
  }

  /** So although the handle was in order at the close, old bytes go out on the new connection. */
  lemma OldBytesOnNewConnection(bf: seq<Byte>, fd: int, fd': int, k: nat) returns (trace: seq<System>, acts: seq<Action>)
    requires bf != [] && fd >= 1 && fd' >= 1 && k >= 1
    ensures IsRun(trace, acts, k) && |acts| == 8 && IsStart(trace[0])
    ensures ReusedBetween(acts, 3, 4, 0) && Connection(acts, 5, 8, 0)
    ensures 0 in trace[3].handles && WriteRuns.Inv(trace[3].handles[0]) && trace[3].handles[0].q == []
    ensures 0 in trace[8].handles && trace[8].handles[0].fd == fd' && trace[8].handles[0].wire == bf
    ensures trace[8].hand.enqueued == trace[5].hand.enqueued
  {
    trace, acts := OldBufferRun(bf, fd, fd', k);
    assert Fresh(bf).Left() == bf && Sent(bf, Accept(|bf|)) == bf;
    assert [] + bf == bf;
  }

  /** And an old buffer without bytes blocks the new connection: nothing is ever sent on it. */
  lemma OldEmptyBufferBlocks(fd: int, fd': int, k: nat) returns (trace: seq<System>, acts: seq<Action>)
    requires fd >= 1 && fd' >= 1 && k >= 1
    ensures IsRun(trace, acts, k) && |acts| == 8 && IsStart(trace[0])
    ensures ReusedBetween(acts, 3, 4, 0) && Connection(acts, 5, 8, 0)
    ensures 0 in trace[3].handles && WriteRuns.Inv(trace[3].handles[0]) && trace[3].handles[0].q == []
    ensures 0 in trace[8].handles && trace[8].handles[0].fd == fd' && Blocked(trace[8].handles[0])
    ensures trace[8].hand.enqueued == trace[5].hand.enqueued
  {
    trace, acts := OldBufferRun([], fd, fd', k);
  }

  /** In the sound case the bookkeeping stays in order as long as the connection lasts; so it does
      for the first connection of every handle. */
  lemma {:induction false} ConnectionStaysInOrder(trace: seq<System>, acts: seq<Action>, k: nat, m: nat, n: nat, id: nat)
    requires IsRun(trace, acts, k) && IsStart(trace[0]) && Connection(acts, m, n, id) && id in trace[m].handles
    requires m > 0 ==> WriteRuns.Inv(trace[m].handles[id])
    ensures id in trace[n].handles && WriteRuns.Inv(trace[n].handles[id])
    decreases n
  {
    if n > m {
      ConnectionStaysInOrder(trace, acts, k, m, n - 1, id);
      RunKeepsInv(trace, acts, k, n - 1);
      assert StepAt(trace, acts, k, n - 1);
      StepKeepsBookkeeping(trace[n - 1], acts[n - 1], k, id);
    } else if m == 0 {
      RegisteredInv(trace[0].handles[id].fd);
    }
  }
}
