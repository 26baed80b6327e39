/** The hand-off between goroutines and the poller (async_write.go:55-109,
    poll_sync_opt.go:76-132): a queue filled under a mutex, a CAS flag, an eventfd, and a
    second queue the poller swaps in and drains at most `k` items at a time.

    Every step between two shared accesses is a step of its own, so the theorems hold for
    every interleaving of any number of producers with the poller.  `k` is 256 for
    asyncWrite and 8 for pollSyncOpt. */
module Handoff {

  /** Where a producer stands inside `push`: its item (the `n`-th ever enqueued) is in the queue
      and the CAS is to come, or the CAS succeeded and the eventfd is to be written. */
  datatype Producer = BeforeCas(n: nat) | Writing

  /** Where the poller stands: waiting in epoll_wait; inside `OnRead` before the swap; draining,
      with `done` items popped; about to read the eventfd; about to store 0. */
  datatype Poller = Rest | Woken | Draining(done: nat) | Reading | Storing

  /** What became of the CAS of an item, with the number of swaps and stores before it. */
  datatype Cas = Pending | Won | Lost(swaps: nat, stores: nat)

  datatype State<T> = State(
    readq: seq<T>,
    writeq: seq<T>,
    notified: int,
    counter: nat,
    producers: map<nat, Producer>,
    poller: Poller,
    delivered: seq<T>,
    enqueued: seq<T>,
    cas: seq<Cas>,
    swaps: nat,
    stores: nat,
    eagain: bool)

  function Init<T>(): State<T> {
    State([], [], 0, 0, map[], Rest, [], [], [], 0, 0, false)
  }

  datatype Action<T> =
    | Enqueue(p: nat, x: T)
    | TryCas(p: nat)
    | Signal(p: nat)
    | Wake
    | Swap
    | Pop
    | EndDrain
    | ReadEventfd
    | Store

  ghost predicate Enabled<T>(s: State<T>, a: Action<T>, k: nat) {
    match a
    case Enqueue(p, _) => p !in s.producers
    case TryCas(p) => p in s.producers && s.producers[p].BeforeCas? && s.producers[p].n < |s.cas|
    case Signal(p) => p in s.producers && s.producers[p].Writing?
    case Wake => s.poller.Rest? && s.counter > 0
    case Swap => s.poller.Woken?
    case Pop => s.poller.Draining? && s.poller.done < k && s.readq != []
    case EndDrain => s.poller.Draining? && (s.poller.done == k || s.readq == [])
    case ReadEventfd => s.poller.Reading?
    case Store => s.poller.Storing?
  }

  ghost function Next<T>(s: State<T>, a: Action<T>, k: nat): State<T>
    requires Enabled(s, a, k)
  {
    match a
    case Enqueue(p, x) =>
      s.(writeq := s.writeq + [x], enqueued := s.enqueued + [x], cas := s.cas + [Pending],
         producers := s.producers[p := BeforeCas(|s.enqueued|)])
    case TryCas(p) =>
      var n := s.producers[p].n;
      if s.notified == 0 then s.(notified := 1, producers := s.producers[p := Writing], cas := s.cas[n := Won])
      else s.(producers := s.producers - {p}, cas := s.cas[n := Lost(s.swaps, s.stores)])
    case Signal(p) =>
      s.(counter := s.counter + 1, producers := s.producers - {p})
    case Wake =>
      s.(poller := Woken)
    case Swap =>
      if s.readq == [] then s.(readq := s.writeq, writeq := s.readq, swaps := s.swaps + 1, poller := Draining(0))
      else s.(poller := Draining(0))
    case Pop =>
      s.(delivered := s.delivered + [s.readq[0]], readq := s.readq[1..], poller := Draining(s.poller.done + 1))
    case EndDrain =>
      s.(poller := if s.readq != [] then Rest else Reading)
    case ReadEventfd =>
      if s.counter == 0 then s.(poller := Rest, eagain := true) else s.(counter := 0, poller := Storing)
    case Store =>
      s.(notified := 0, stores := s.stores + 1, poller := Rest)
  }

  // ----- The wake-up token -----

  /** The producers between a successful CAS and the write of the eventfd. */
  ghost function Writers<T>(s: State<T>): set<nat> {
    set p | p in s.producers && s.producers[p].Writing?
  }

  /** There is one wake-up token, and `notified` says whether it is out: in the eventfd, with a
      producer about to write it, or with the poller between its read and its store. */
  ghost predicate OneToken<T>(s: State<T>) {
    && s.notified == s.counter + |Writers(s)| + (if s.poller.Storing? then 1 else 0)
    && 0 <= s.notified <= 1
    && (s.poller.Woken? || s.poller.Draining? || s.poller.Reading? ==> s.counter == 1)
    && !s.eagain
  }

  // ----- The items -----

  /** The poller has swapped since it last stored 0. */
  ghost predicate MidBatch<T>(s: State<T>) {
    !(s.poller.Rest? || s.poller.Woken?) || s.readq != []
  }

  ghost predicate Batches<T>(s: State<T>) {
    && s.swaps == s.stores + (if MidBatch(s) then 1 else 0)
    && (s.poller.Reading? || s.poller.Storing? ==> s.readq == [])
    && (s.poller.Rest? && s.readq != [] ==> s.counter == 1)
  }

  /** Item number `n` sits in `writeq`. */
  ghost predicate Unswapped<T>(s: State<T>, n: nat) {
    |s.enqueued| - |s.writeq| <= n < |s.enqueued|
  }

  /** Every item is in exactly one place, in the order of the mutex. */
  ghost predicate Ordered<T>(s: State<T>) {
    s.delivered + s.readq + s.writeq == s.enqueued && |s.cas| == |s.enqueued|
  }

  ghost predicate CasRecords<T>(s: State<T>) {
    && (forall p :: p in s.producers && s.producers[p].BeforeCas? ==>
          s.producers[p].n < |s.cas| && s.cas[s.producers[p].n] == Pending)
    && (forall p, q :: p in s.producers && q in s.producers && p != q && s.producers[p].BeforeCas? && s.producers[q].BeforeCas?
          ==> s.producers[p].n != s.producers[q].n)
    && (forall n: nat :: n < |s.cas| && s.cas[n] == Pending ==> HasProducer(s, n))
    && (forall n: nat :: n < |s.cas| && Unswapped(s, n) && s.cas[n] == Won ==> s.notified == 1 && !MidBatch(s))
    && (forall n: nat :: n < |s.cas| && Unswapped(s, n) && s.cas[n].Lost? ==>
          && s.cas[n].swaps == s.swaps
          && s.swaps <= s.cas[n].stores + 1
          && s.cas[n].stores <= s.stores
          && (s.notified == 0 ==> s.cas[n].stores < s.stores))
  }

  /** Some producer is still before its CAS for item `n`. */
  ghost predicate HasProducer<T>(s: State<T>, n: nat) {
    exists p :: p in s.producers && s.producers[p] == BeforeCas(n)
  }

  ghost predicate Inv<T>(s: State<T>) {
    OneToken(s) && Batches(s) && Ordered(s) && CasRecords(s)
  }

  lemma InitInv<T>()
    ensures Inv(Init<T>())
  {
    assert Writers(Init<T>()) == {};
  }

  // ----- Preservation, step by step -----

  lemma TokenKept<T>(s: State<T>, a: Action<T>, k: nat)
    requires OneToken(s) && Batches(s) && Enabled(s, a, k)
    ensures OneToken(Next(s, a, k))
  {
    var t := Next(s, a, k);
    match a
    case Enqueue(p, _) =>
      assert Writers(t) == Writers(s);
    case TryCas(p) =>
      if s.notified == 0 {
        assert Writers(t) == Writers(s) + {p};
      } else {
        assert Writers(t) == Writers(s);
      }
    case Signal(p) =>
      assert p in Writers(s);
      assert Writers(t) == Writers(s) - {p};
    case _ =>
      assert Writers(t) == Writers(s);
  }

  lemma BatchesKept<T>(s: State<T>, a: Action<T>, k: nat)
    requires OneToken(s) && Batches(s) && Enabled(s, a, k)
    ensures Batches(Next(s, a, k))
  {
    if a.Signal? {
      assert a.p in Writers(s);
    }
  }

  lemma OrderKept<T>(s: State<T>, a: Action<T>, k: nat)
    requires Ordered(s) && Enabled(s, a, k)
    ensures Ordered(Next(s, a, k))
  {
    match a
    case Enqueue(p, x) =>
      assert s.delivered + s.readq + (s.writeq + [x]) == s.delivered + s.readq + s.writeq + [x];
    case Pop =>
      assert s.delivered + s.readq == s.delivered + [s.readq[0]] + s.readq[1..];
    case _ =>
  }

  lemma EnqueueKeepsRecords<T>(s: State<T>, p: nat, x: T, k: nat)
    requires Inv(s) && Enabled(s, Enqueue(p, x), k)
    ensures CasRecords(Next(s, Enqueue(p, x), k))
  {
    var t := Next(s, Enqueue(p, x), k);
    var m := |s.cas|;
    assert t.producers[p] == BeforeCas(m);
    forall n: nat | n < |t.cas| && t.cas[n] == Pending ensures HasProducer(t, n) {
      if n < m {
        assert HasProducer(s, n);
        var q :| q in s.producers && s.producers[q] == BeforeCas(n);
        assert q in t.producers && t.producers[q] == BeforeCas(n);
      }
    }
    assert forall n: nat :: n < m && Unswapped(t, n) ==> Unswapped(s, n);
  }

  lemma CasKeepsRecords<T>(s: State<T>, p: nat, k: nat)
    requires Inv(s) && Enabled(s, TryCas(p), k)
    ensures CasRecords(Next(s, TryCas(p), k))
  {
    var t := Next(s, TryCas(p), k);
    var m := s.producers[p].n;
    forall n: nat | n < |t.cas| && t.cas[n] == Pending ensures HasProducer(t, n) {
      assert n != m && s.cas[n] == Pending && HasProducer(s, n);
      var q :| q in s.producers && s.producers[q] == BeforeCas(n);
      assert q != p && q in t.producers && t.producers[q] == BeforeCas(n);
    }
    assert forall n: nat :: Unswapped(t, n) <==> Unswapped(s, n);
    assert s.notified == 0 ==> !MidBatch(s);
  }

  lemma SignalKeepsRecords<T>(s: State<T>, p: nat, k: nat)
    requires Inv(s) && Enabled(s, Signal(p), k)
    ensures CasRecords(Next(s, Signal(p), k))
  {
    var t := Next(s, Signal(p), k);
    forall n: nat | n < |t.cas| && t.cas[n] == Pending ensures HasProducer(t, n) {
      assert HasProducer(s, n);
      var q :| q in s.producers && s.producers[q] == BeforeCas(n);
      assert q in t.producers && t.producers[q] == BeforeCas(n);
    }
    assert forall n: nat :: Unswapped(t, n) <==> Unswapped(s, n);
  }

  lemma PollerKeepsRecords<T>(s: State<T>, a: Action<T>, k: nat)
    requires Inv(s) && Enabled(s, a, k) && !a.Enqueue? && !a.TryCas? && !a.Signal?
    ensures CasRecords(Next(s, a, k))
  {
    var t := Next(s, a, k);
    assert t.producers == s.producers && t.cas == s.cas;
    forall n: nat | n < |t.cas| && t.cas[n] == Pending ensures HasProducer(t, n) {
      assert HasProducer(s, n);
      var q :| q in s.producers && s.producers[q] == BeforeCas(n);
      assert q in t.producers && t.producers[q] == BeforeCas(n);
    }
    assert forall n: nat :: Unswapped(t, n) ==> Unswapped(s, n);
  }

  lemma StepKeepsInv<T>(s: State<T>, a: Action<T>, k: nat)
    requires Inv(s) && Enabled(s, a, k)
    ensures Inv(Next(s, a, k))
  {
    TokenKept(s, a, k);
    BatchesKept(s, a, k);
    OrderKept(s, a, k);
    match a
    case Enqueue(p, x) => EnqueueKeepsRecords(s, p, x, k);
    case TryCas(p) => CasKeepsRecords(s, p, k);
    case Signal(p) => SignalKeepsRecords(s, p, k);
    case _ => PollerKeepsRecords(s, a, k);
  }

  // ----- Runs -----

  /** Action `i` leads from the `i`-th state to the next. */
  ghost predicate StepAt<T>(trace: seq<State<T>>, acts: seq<Action<T>>, k: nat, i: nat)
    requires i < |acts| < |trace|
  {
    Enabled(trace[i], acts[i], k) && trace[i + 1] == Next(trace[i], acts[i], k)
  }

  ghost predicate IsRun<T>(trace: seq<State<T>>, acts: seq<Action<T>>, k: nat) {
    && |trace| == |acts| + 1
    && (forall i :: 0 <= i < |acts| ==> StepAt(trace, acts, k, i))
  }

  lemma {:induction false} RunKeepsInv<T>(trace: seq<State<T>>, acts: seq<Action<T>>, k: nat, n: nat)
    requires IsRun(trace, acts, k) && Inv(trace[0]) && n <= |acts|
    ensures Inv(trace[n])
  {
    if n > 0 {
      RunKeepsInv(trace, acts, k, n - 1);
      assert StepAt(trace, acts, k, n - 1);
      StepKeepsInv(trace[n - 1], acts[n - 1], k);
    }
  }

  /** Exactly-once FIFO delivery: in every state of every run, what has been delivered, what is
      being drained and what is waiting are together what was enqueued, in that order. */
  lemma DeliveryIsFifo<T>(trace: seq<State<T>>, acts: seq<Action<T>>, k: nat, n: nat)
    requires IsRun(trace, acts, k) && trace[0] == Init() && n <= |acts|
    ensures trace[n].delivered + trace[n].readq + trace[n].writeq == trace[n].enqueued
  {
    InitInv<T>();
    RunKeepsInv(trace, acts, k, n);
  }

  /** One wake-up token: the eventfd counter never exceeds 1, at most one producer is about to
      write it, and the poller never finds it empty. */
  lemma OneWakeUpAtATime<T>(trace: seq<State<T>>, acts: seq<Action<T>>, k: nat, n: nat)
    requires IsRun(trace, acts, k) && trace[0] == Init() && n <= |acts|
    ensures var s := trace[n];
            && s.notified == s.counter + |Writers(s)| + (if s.poller.Storing? then 1 else 0)
            && s.counter <= 1 && |Writers(s)| <= 1 && !s.eagain
            && (s.poller.Reading? ==> s.counter == 1)
  {
    InitInv<T>();
    RunKeepsInv(trace, acts, k, n);
  }

  /** A poller at rest with undrained items has a readable eventfd. */
  lemma UndrainedItemsAreAnnounced<T>(trace: seq<State<T>>, acts: seq<Action<T>>, k: nat, n: nat)
    requires IsRun(trace, acts, k) && trace[0] == Init() && n <= |acts|
    ensures trace[n].poller.Rest? && trace[n].readq != [] ==> trace[n].counter == 1
  {
    InitInv<T>();
    RunKeepsInv(trace, acts, k, n);
  }

  // ----- Stranded items -----

  /** Item `n` waits and no wake-up is under way for it. */
  ghost predicate Stranded<T>(s: State<T>, n: nat) {
    Unswapped(s, n) && s.notified == 0 && !HasProducer(s, n)
  }

  /** An item is stranded exactly when it sits in `writeq`, the flag is down, and its CAS failed
      after the last swap and before the last store. */
  lemma StrandedIffCasLost<T>(s: State<T>, item: nat)
    requires Inv(s)
    ensures Stranded(s, item)
            <==> Unswapped(s, item) && s.notified == 0 && s.stores >= 1 && s.cas[item] == Lost(s.swaps, s.stores - 1)
  {
    assert !MidBatch(s) || s.notified == 1;
    if Unswapped(s, item) && s.cas[item].Lost? && HasProducer(s, item) {
      assert false;
    }
  }

  /** The step that strands `item`: the store of 0, while the item is in `writeq` and its CAS has
      failed already. */
  ghost predicate Strands<T>(s: State<T>, a: Action<T>, item: nat) {
    a.Store? && Unswapped(s, item) && item < |s.cas| && s.cas[item].Lost?
  }

  /** No other step strands an item, and only the next CAS ends it. */
  lemma StepStrandsIff<T>(s: State<T>, a: Action<T>, k: nat, item: nat)
    requires Inv(s) && Enabled(s, a, k)
    ensures Stranded(Next(s, a, k), item) <==> Strands(s, a, item) || (Stranded(s, item) && !a.TryCas?)
  {
    var t := Next(s, a, k);
    StepKeepsInv(s, a, k);
    match a
    case Enqueue(p, x) =>
      assert t.producers[p] == BeforeCas(|s.enqueued|);
      if item < |s.enqueued| {
        assert HasProducer(s, item) <==> HasProducer(t, item) by { EnqueueAddsOne(s, p, x, k, item); }
      } else if item == |s.enqueued| {
        assert HasProducer(t, item);
      }
    case TryCas(p) =>
      assert t.notified == 1;
    case Signal(p) =>
      assert p in Writers(s);
    case Store =>
      if Unswapped(s, item) && s.cas[item].Lost? {
        assert !HasProducer(s, item);
      }
    case _ =>
      assert s.producers == t.producers;
  }

  lemma EnqueueAddsOne<T>(s: State<T>, p: nat, x: T, k: nat, item: nat)
    requires Enabled(s, Enqueue(p, x), k) && item < |s.enqueued|
    ensures HasProducer(Next(s, Enqueue(p, x), k), item) <==> HasProducer(s, item)
  {
    var t := Next(s, Enqueue(p, x), k);
    if HasProducer(s, item) {
      var q :| q in s.producers && s.producers[q] == BeforeCas(item);
      assert q in t.producers && t.producers[q] == BeforeCas(item);
    }
  }

  /** Some step before the `n`-th stranded `item`, and no CAS has been tried since. */
  ghost predicate StrandedSince<T>(trace: seq<State<T>>, acts: seq<Action<T>>, n: nat, item: nat)
    requires n <= |acts| < |trace|
  {
    exists i :: 0 <= i < n && Strands(trace[i], acts[i], item) && forall j :: i < j < n ==> !acts[j].TryCas?
  }

  lemma SinceGrows<T>(trace: seq<State<T>>, acts: seq<Action<T>>, n: nat, item: nat)
    requires n < |acts| < |trace|
    ensures StrandedSince(trace, acts, n + 1, item)
            <==> Strands(trace[n], acts[n], item) || (StrandedSince(trace, acts, n, item) && !acts[n].TryCas?)
  {
    if StrandedSince(trace, acts, n, item) && !acts[n].TryCas? {
      var i :| 0 <= i < n && Strands(trace[i], acts[i], item) && forall j :: i < j < n ==> !acts[j].TryCas?;
      assert forall j :: i < j < n + 1 ==> !acts[j].TryCas?;
    }
  }

  /** Over every run: an item is stranded exactly when some store found it in `writeq` with its
      CAS lost, and no CAS has been tried since. */
  lemma {:induction false} StrandedIff<T>(trace: seq<State<T>>, acts: seq<Action<T>>, k: nat, n: nat, item: nat)
    requires IsRun(trace, acts, k) && trace[0] == Init() && n <= |acts|
    ensures Stranded(trace[n], item) <==> StrandedSince(trace, acts, n, item)
  {
    if n > 0 {
      InitInv<T>();
      RunKeepsInv(trace, acts, k, n - 1);
      StrandedIff(trace, acts, k, n - 1, item);
      assert StepAt(trace, acts, k, n - 1);
      StepStrandsIff(trace[n - 1], acts[n - 1], k, item);
      SinceGrows(trace, acts, n - 1, item);
    }
  }

  /** Between two swaps nothing leaves `writeq`, and once a CAS has been tried a wake-up is in
      the eventfd or about to be written. */
  lemma {:induction false} UntilTheNextSwap<T>(trace: seq<State<T>>, acts: seq<Action<T>>, k: nat, n: nat)
    requires IsRun(trace, acts, k) && Inv(trace[0]) && trace[0].notified == 0 && n <= |acts|
    requires forall i :: 0 <= i < n ==> !acts[i].Swap?
    ensures var s, t := trace[0], trace[n];
            && Inv(t) && !MidBatch(t) && t.readq == []
            && s.writeq <= t.writeq
            && ((exists i :: 0 <= i < n && acts[i].TryCas?) ==> t.notified == 1)
            && (t.notified == 1 ==> t.counter == 1 || Writers(t) != {})
  {
    assert !MidBatch(trace[0]);
    if n > 0 {
      UntilTheNextSwap(trace, acts, k, n - 1);
      var t := trace[n - 1];
      assert StepAt(trace, acts, k, n - 1);
      StepKeepsInv(t, acts[n - 1], k);
      if exists i :: 0 <= i < n && acts[i].TryCas? {
        var i :| 0 <= i < n && acts[i].TryCas?;
        assert i == n - 1 || t.notified == 1;
      }
    }
  }

  /** Items stranded in `writeq` are not lost: the next push wins its CAS, and the swap of the
      `OnRead` it causes brings them in ahead of everything pushed since. */
  lemma NextPushRescues<T>(trace: seq<State<T>>, acts: seq<Action<T>>, k: nat, n: nat)
    requires IsRun(trace, acts, k) && Inv(trace[0]) && trace[0].notified == 0 && n < |acts|
    requires (forall i :: 0 <= i < n ==> !acts[i].Swap?) && acts[n].Swap?
    ensures trace[0].writeq <= trace[n + 1].readq && trace[n + 1].writeq == []
  {
    UntilTheNextSwap(trace, acts, k, n);
    assert StepAt(trace, acts, k, n);
  }
}
