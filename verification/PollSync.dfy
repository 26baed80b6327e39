/** pollSyncOpt (poll_sync_opt.go:67-132): operations handed over as in module `Handoff`, applied
    to the poller's cache one by one as they are popped. */
module PollSync {
  import Handoff

  /** An operation on the poller's cache; other types than PollSyncCache do nothing. */
  datatype SyncArg<V> = SyncArg(typ: int, id: int, value: V)

  const POLL_SYNC_CACHE := 1

  function DoSync<V>(cache: map<int, V>, op: SyncArg<V>): map<int, V> {
    if op.typ == POLL_SYNC_CACHE then cache[op.id := op.value] else cache
  }

  /** The cache after a sequence of operations. */
  function Fold<V>(cache: map<int, V>, ops: seq<SyncArg<V>>): map<int, V> {
    if ops == [] then cache else DoSync(Fold(cache, ops[..|ops| - 1]), ops[|ops| - 1])
  }

  lemma FoldSnoc<V>(cache: map<int, V>, ops: seq<SyncArg<V>>, op: SyncArg<V>)
    ensures Fold(cache, ops + [op]) == DoSync(Fold(cache, ops), op)
  {
    assert (ops + [op])[..|ops|] == ops;
  }

  /** Operation `i` writes a key that none after it writes. */
  predicate LastWrite<V>(ops: seq<SyncArg<V>>, i: nat)
    requires i < |ops|
  {
    && ops[i].typ == POLL_SYNC_CACHE
    && forall j :: i < j < |ops| ==> ops[j].typ != POLL_SYNC_CACHE || ops[j].id != ops[i].id
  }

  /** The last write wins: what the fold says about a key. */
  lemma {:induction false} FoldLastWrite<V>(cache: map<int, V>, ops: seq<SyncArg<V>>, id: int)
    ensures id in Fold(cache, ops) <==>
            id in cache || exists i :: 0 <= i < |ops| && ops[i].typ == POLL_SYNC_CACHE && ops[i].id == id
    ensures forall i :: 0 <= i < |ops| && ops[i].id == id && LastWrite(ops, i)
              ==> id in Fold(cache, ops) && Fold(cache, ops)[id] == ops[i].value
  {
    if ops != [] {
      var n := |ops| - 1;
      FoldLastWrite(cache, ops[..n], id);
      assert forall i :: 0 <= i < n ==> ops[..n][i] == ops[i];
    }
  }

  lemma {:induction false} FoldConcat<V>(cache: map<int, V>, a: seq<SyncArg<V>>, b: seq<SyncArg<V>>)
    ensures Fold(cache, a + b) == Fold(Fold(cache, a), b)
    decreases |b|
  {
    if b == [] {
      assert a + b == a;
    } else {
      var n := |b| - 1;
      assert (a + b)[..|a| + n] == a + b[..n];
      FoldConcat(cache, a, b[..n]);
    }
  }

  // ----- Runs -----

  type Hand<V> = Handoff.State<SyncArg<V>>

  datatype System<V> = System(hand: Hand<V>, pCache: map<int, V>)

  /** Popping an operation is applying it. */
  ghost function Next<V>(s: System<V>, a: Handoff.Action<SyncArg<V>>, k: nat): System<V>
    requires Handoff.Enabled(s.hand, a, k)
  {
    System(Handoff.Next(s.hand, a, k), if a.Pop? then DoSync(s.pCache, s.hand.readq[0]) else s.pCache)
  }

  ghost predicate IsRun<V>(trace: seq<System<V>>, acts: seq<Handoff.Action<SyncArg<V>>>, k: nat) {
    && |trace| == |acts| + 1
    && (forall i :: 0 <= i < |acts| ==>
          Handoff.Enabled(trace[i].hand, acts[i], k) && trace[i + 1] == Next(trace[i], acts[i], k))
  }

  /** The cache is the fold of what has been delivered. */
  ghost predicate Inv<V>(s: System<V>, start: map<int, V>) {
    Handoff.Inv(s.hand) && s.pCache == Fold(start, s.hand.delivered)
  }

  lemma NextKeepsInv<V>(s: System<V>, a: Handoff.Action<SyncArg<V>>, k: nat, start: map<int, V>)
    requires Inv(s, start) && Handoff.Enabled(s.hand, a, k)
    ensures Inv(Next(s, a, k), start)
  {
    Handoff.StepKeepsInv(s.hand, a, k);
    if a.Pop? {
      FoldSnoc(start, s.hand.delivered, s.hand.readq[0]);
    }
  }

  lemma {:induction false} RunKeepsInv<V>(trace: seq<System<V>>, acts: seq<Handoff.Action<SyncArg<V>>>, k: nat, n: nat)
    requires IsRun(trace, acts, k) && trace[0].hand == Handoff.Init() && n <= |acts|
    ensures Inv(trace[n], trace[0].pCache)
  {
    if n == 0 {
      Handoff.InitInv<SyncArg<V>>();
    } else {
      RunKeepsInv(trace, acts, k, n - 1);
      NextKeepsInv(trace[n - 1], acts[n - 1], k, trace[0].pCache);
    }
  }

  /** In every state of every run the waiting operations, applied to the cache as it is, would give
      the fold of everything pushed, in the order of the mutex. */
  lemma CacheFollowsThePushes<V>(trace: seq<System<V>>, acts: seq<Handoff.Action<SyncArg<V>>>, k: nat, n: nat)
    requires IsRun(trace, acts, k) && trace[0].hand == Handoff.Init() && n <= |acts|
    ensures var s := trace[n];
            && s.pCache == Fold(trace[0].pCache, s.hand.delivered)
            && Fold(s.pCache, s.hand.readq + s.hand.writeq) == Fold(trace[0].pCache, s.hand.enqueued)
  {
    RunKeepsInv(trace, acts, k, n);
    var s := trace[n].hand;
    FoldConcat(trace[0].pCache, s.delivered, s.readq + s.writeq);
    assert s.delivered + (s.readq + s.writeq) == s.enqueued;
  }

  /** So with both queues drained the cache holds for each key what was pushed for it last. */
  lemma QuietCacheHasLastPush<V>(trace: seq<System<V>>, acts: seq<Handoff.Action<SyncArg<V>>>, k: nat, n: nat, i: nat)
    requires IsRun(trace, acts, k) && trace[0].hand == Handoff.Init() && n <= |acts|
    requires trace[n].hand.readq == [] && trace[n].hand.writeq == []
    requires i < |trace[n].hand.enqueued| && LastWrite(trace[n].hand.enqueued, i)
    ensures var op := trace[n].hand.enqueued[i];
            op.id in trace[n].pCache && trace[n].pCache[op.id] == op.value
  {
    CacheFollowsThePushes(trace, acts, k, n);
    FoldLastWrite(trace[0].pCache, trace[n].hand.enqueued, trace[n].hand.enqueued[i].id);
  }
}
