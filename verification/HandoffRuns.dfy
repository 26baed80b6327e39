/** The hand-off when nobody interferes: a whole `push` and a whole `OnRead` as one step each,
    their place among the runs of module `Handoff`, and exactly when they strand items. */
module HandoffRuns {
  import opened Handoff

  /** The shared state: both queues, the flag, and the eventfd counter. */
  datatype Queues<T> = Queues(readq: seq<T>, writeq: seq<T>, notified: int, counter: nat)

  function View<T>(s: State<T>): Queues<T> { Queues(s.readq, s.writeq, s.notified, s.counter) }

  /** async_write.go:55-71 */
  function Push<T>(q: Queues<T>, x: T): Queues<T> {
    var q1 := q.(writeq := q.writeq + [x]);
    if q.notified == 0 then q1.(notified := 1, counter := q.counter + 1) else q1
  }

  /** The batch an `OnRead` works on: what was left over, or else what has been pushed. */
  function Batch<T>(q: Queues<T>): seq<T> { if q.readq == [] then q.writeq else q.readq }

  /** How many items of it are popped. */
  function Taken<T>(q: Queues<T>, k: nat): nat { if |Batch(q)| < k then |Batch(q)| else k }

  /** async_write.go:74-109, woken by a readable eventfd */
  function OnRead<T>(q: Queues<T>, k: nat): Queues<T> {
    var left := Batch(q)[Taken(q, k)..];
    var w := if q.readq == [] then [] else q.writeq;
    if left != [] then Queues(left, w, q.notified, q.counter) else Queues([], w, 0, 0)
  }

  // ----- As runs of the step relation -----

  /** `acts` leads from `s` to `t`. */
  ghost predicate Leads<T>(s: State<T>, acts: seq<Action<T>>, t: State<T>, k: nat)
    decreases |acts|
  {
    if acts == [] then s == t
    else Enabled(s, acts[0], k) && Leads(Next(s, acts[0], k), acts[1..], t, k)
  }

  lemma LeadsFirst<T>(s: State<T>, a: Action<T>, acts: seq<Action<T>>, t: State<T>, k: nat)
    requires Enabled(s, a, k) && Leads(Next(s, a, k), acts, t, k)
    ensures Leads(s, [a] + acts, t, k)
  {
    assert ([a] + acts)[1..] == acts;
  }

  lemma {:induction false} LeadsThen<T>(s: State<T>, a: seq<Action<T>>, u: State<T>, b: seq<Action<T>>, t: State<T>, k: nat)
    requires Leads(s, a, u, k) && Leads(u, b, t, k)
    ensures Leads(s, a + b, t, k)
    decreases |a|
  {
    if a == [] {
      assert a + b == b;
    } else {
      assert a + b == [a[0]] + (a[1..] + b);
      LeadsThen(Next(s, a[0], k), a[1..], u, b, t, k);
      LeadsFirst(s, a[0], a[1..] + b, t, k);
    }
  }

  /** The states along the way. */
  lemma {:induction false} LeadsIsRun<T>(s: State<T>, acts: seq<Action<T>>, t: State<T>, k: nat) returns (trace: seq<State<T>>)
    requires Leads(s, acts, t, k)
    ensures IsRun(trace, acts, k) && trace[0] == s && trace[|acts|] == t
    decreases |acts|
  {
    if acts == [] {
      trace := [s];
    } else {
      var rest := LeadsIsRun(Next(s, acts[0], k), acts[1..], t, k);
      trace := [s] + rest;
      forall i | 0 <= i < |acts| ensures StepAt(trace, acts, k, i) {
        if i > 0 {
          assert StepAt(rest, acts[1..], k, i - 1);
          assert trace[i] == rest[i - 1] && trace[i + 1] == rest[i] && acts[i] == acts[1..][i - 1];
        }
      }
    }
  }

  /** An undisturbed push of an idle producer is a run; nothing is delivered by it. */
  lemma PushIsRun<T>(s: State<T>, p: nat, x: T, k: nat) returns (acts: seq<Action<T>>, t: State<T>)
    requires Inv(s) && p !in s.producers
    ensures Leads(s, acts, t, k) && View(t) == Push(View(s), x)
    ensures t.producers == s.producers && t.poller == s.poller && t.delivered == s.delivered
  {
    var s1 := Next(s, Enqueue(p, x), k);
    assert |s1.cas| == |s.enqueued| + 1;
    var s2 := Next(s1, TryCas(p), k);
    if s.notified == 0 {
      t := Next(s2, Signal(p), k);
      acts := [Enqueue(p, x)] + ([TryCas(p)] + ([Signal(p)] + []));
      LeadsFirst(s2, Signal(p), [], t, k);
      LeadsFirst(s1, TryCas(p), [Signal(p)] + [], t, k);
    } else {
      t := s2;
      acts := [Enqueue(p, x)] + ([TryCas(p)] + []);
      LeadsFirst(s1, TryCas(p), [], t, k);
    }
    LeadsFirst(s, Enqueue(p, x), acts[1..], t, k);
    assert acts == [Enqueue(p, x)] + acts[1..];
    assert t.producers == s.producers;
  }

  lemma {:induction false} PopsAreRun<T>(s: State<T>, n: nat, k: nat) returns (acts: seq<Action<T>>, t: State<T>)
    requires s.poller.Draining? && s.poller.done + n <= k && n <= |s.readq|
    ensures Leads(s, acts, t, k)
    ensures t == s.(delivered := s.delivered + s.readq[..n], readq := s.readq[n..], poller := Draining(s.poller.done + n))
    decreases n
  {
    if n == 0 {
      acts, t := [], s;
      assert s.delivered + s.readq[..0] == s.delivered;
    } else {
      var s1 := Next(s, Pop, k);
      var rest;
      rest, t := PopsAreRun(s1, n - 1, k);
      acts := [Pop] + rest;
      LeadsFirst(s, Pop, rest, t, k);
      assert s.delivered + [s.readq[0]] + s1.readq[..n - 1] == s.delivered + s.readq[..n];
    }
  }

  /** An undisturbed `OnRead` is a run; it delivers the first items of its batch. */
  lemma OnReadIsRun<T>(s: State<T>, k: nat) returns (acts: seq<Action<T>>, t: State<T>)
    requires Inv(s) && s.poller.Rest? && s.counter > 0
    ensures Leads(s, acts, t, k) && View(t) == OnRead(View(s), k) && t.poller.Rest?
    ensures t.delivered == s.delivered + Batch(View(s))[..Taken(View(s), k)] && t.producers == s.producers
  {
    var s1 := Next(s, Wake, k);
    var s2 := Next(s1, Swap, k);
    var n := Taken(View(s), k);
    assert s2.readq == Batch(View(s));
    var pops, s3 := PopsAreRun(s2, n, k);
    var s4 := Next(s3, EndDrain, k);
    var last: seq<Action<T>>;
    if s3.readq != [] {
      t := s4;
      last := [EndDrain] + [];
      LeadsFirst(s3, EndDrain, [], t, k);
    } else {
      var s5 := Next(s4, ReadEventfd, k);
      t := Next(s5, Store, k);
      last := [EndDrain] + ([ReadEventfd] + ([Store] + []));
      LeadsFirst(s5, Store, [], t, k);
      LeadsFirst(s4, ReadEventfd, [Store] + [], t, k);
      LeadsFirst(s3, EndDrain, [ReadEventfd] + ([Store] + []), t, k);
    }
    LeadsThen(s2, pops, s3, last, t, k);
    LeadsFirst(s1, Swap, pops + last, t, k);
    LeadsFirst(s, Wake, [Swap] + (pops + last), t, k);
    acts := [Wake] + ([Swap] + (pops + last));
  }

  /** The drain loop between a swap in state `i` and state `m`, whoever pushes meanwhile: it has
      delivered the first items of the batch, never more than `k`. */
  lemma {:induction false} DrainedSoFar<T>(trace: seq<State<T>>, acts: seq<Action<T>>, k: nat, i: nat, m: nat)
    requires IsRun(trace, acts, k) && i < m <= |acts| && acts[i].Swap?
    requires forall j :: i < j < m ==> !acts[j].EndDrain?
    ensures var batch := if trace[i].readq == [] then trace[i].writeq else trace[i].readq;
            && trace[m].poller.Draining? && trace[m].poller.done <= k && trace[m].poller.done <= |batch|
            && trace[m].delivered == trace[i].delivered + batch[..trace[m].poller.done]
            && trace[m].readq == batch[trace[m].poller.done..]
    decreases m
  {
    assert StepAt(trace, acts, k, m - 1);
    if m > i + 1 {
      DrainedSoFar(trace, acts, k, i, m - 1);
    }
  }

  /** Over every run, with any pushes in between, a drain loop delivers exactly the first `k` items of
      its batch, or all of it if it is shorter. */
  lemma LoopDelivers<T>(trace: seq<State<T>>, acts: seq<Action<T>>, k: nat, i: nat, j: nat)
    requires IsRun(trace, acts, k) && i < j < |acts| && acts[i].Swap? && acts[j].EndDrain?
    requires forall m :: i < m < j ==> !acts[m].EndDrain?
    ensures var batch := if trace[i].readq == [] then trace[i].writeq else trace[i].readq;
            var n := if |batch| < k then |batch| else k;
            trace[j].delivered == trace[i].delivered + batch[..n] && trace[j].readq == batch[n..]
  {
    DrainedSoFar(trace, acts, k, i, j);
    assert StepAt(trace, acts, k, j);
  }

  // ----- Exactly when items are stranded -----

  /** Items wait although the flag is down. */
  predicate StrandedIn<T(==)>(q: Queues<T>) { q.notified == 0 && q.writeq != [] }

  /** Even an undisturbed `OnRead` strands items: exactly when it finishes off an earlier batch
      while new items have come in. */
  lemma OnReadStrandsIff<T>(q: Queues<T>, k: nat)
    requires q.notified == 1
    ensures StrandedIn(OnRead(q, k)) <==> (q.readq != [] && |q.readq| <= k && q.writeq != [])
  {
  }

  /** So a backlog of more than one batch, a push in between, and no further push: the pushed
      item waits with the flag down and the eventfd empty. */
  lemma BacklogStrands<T>(w: seq<T>, x: T, k: nat)
    requires k < |w| <= 2 * k
    ensures OnRead(Push(OnRead(Queues([], w, 1, 1), k), x), k) == Queues([], [x], 0, 0)
  {
    var q1 := OnRead(Queues([], w, 1, 1), k);
    assert q1 == Queues(w[k..], [], 1, 1);
    assert Push(q1, x) == Queues(w[k..], [x], 1, 1);
  }

  lemma WakeAndSwap<T>(s: State<T>, k: nat) returns (acts: seq<Action<T>>, t: State<T>)
    requires s.poller.Rest? && s.counter > 0 && s.readq == []
    ensures Leads(s, acts, t, k)
    ensures t == s.(readq := s.writeq, writeq := [], swaps := s.swaps + 1, poller := Draining(0))
  {
    var s1 := Next(s, Wake, k);
    t := Next(s1, Swap, k);
    LeadsFirst(s1, Swap, [], t, k);
    acts := [Wake] + ([Swap] + []);
    LeadsFirst(s, Wake, [Swap] + [], t, k);
  }

  /** The last item of a batch is popped, the eventfd is read, 0 is stored. */
  lemma FinishBatch<T>(s: State<T>, k: nat) returns (acts: seq<Action<T>>, t: State<T>)
    requires k >= 1 && s.poller == Draining(0) && |s.readq| == 1 && s.counter > 0
    ensures Leads(s, acts, t, k)
    ensures t == s.(delivered := s.delivered + s.readq, readq := [], counter := 0, notified := 0,
                    stores := s.stores + 1, poller := Rest)
  {
    var s1 := Next(s, Pop, k);
    var s2 := Next(s1, EndDrain, k);
    var s3 := Next(s2, ReadEventfd, k);
    t := Next(s3, Store, k);
    assert [s.readq[0]] == s.readq;
    LeadsFirst(s3, Store, [], t, k);
    LeadsFirst(s2, ReadEventfd, [Store] + [], t, k);
    LeadsFirst(s1, EndDrain, [ReadEventfd] + ([Store] + []), t, k);
    acts := [Pop] + ([EndDrain] + ([ReadEventfd] + ([Store] + [])));
    LeadsFirst(s, Pop, [EndDrain] + ([ReadEventfd] + ([Store] + [])), t, k);
  }

  /** And two pushes suffice when the second falls between the swap and the store: for any batch
      bound there is a run from the start that leaves `b` stranded. */
  lemma PushDuringBatchStrands<T>(a: T, b: T, k: nat) returns (acts: seq<Action<T>>, t: State<T>)
    requires k >= 1
    ensures Leads(Init(), acts, t, k)
    ensures Stranded(t, 1) && t.writeq == [b] && t.delivered == [a] && t.counter == 0 && t.poller.Rest? && t.producers == map[]
  {
    InitInv<T>();
    var acts1, s1 := PushIsRun(Init(), 0, a, k);
    var acts2, s2 := WakeAndSwap(s1, k);
    LeadsThen(Init(), acts1, s1, acts2, s2, k);
    InvAfter(Init(), acts1 + acts2, s2, k);
    var acts3, s3 := PushIsRun(s2, 1, b, k);
    var acts4;
    acts4, t := FinishBatch(s3, k);
    LeadsThen(s2, acts3, s3, acts4, t, k);
    LeadsThen(Init(), acts1 + acts2, s2, acts3 + acts4, t, k);
    acts := (acts1 + acts2) + (acts3 + acts4);
    InvAfter(Init(), acts, t, k);
    assert t.enqueued == t.delivered + t.readq + t.writeq;
  }

  lemma InvAfter<T>(s: State<T>, acts: seq<Action<T>>, t: State<T>, k: nat)
    requires Inv(s) && Leads(s, acts, t, k)
    ensures Inv(t)
  {
    var trace := LeadsIsRun(s, acts, t, k);
    RunKeepsInv(trace, acts, k, |acts|);
  }
}
