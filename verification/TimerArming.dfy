/** Arming the timerfd (timer_4heap.go:49-95).  `schedule` skips the system call when the
    root's expiry equals the cached `timerfdSettime`; `OnRead` re-arms without
    refreshing the cache.  Times are in nanoseconds, the keys of the heap in
    milliseconds, as in the source.

    Every operation reads the clock at `t` and arms the kernel timer at `u`, with a relative delay
    computed from `t`; for `OnRead` all the callbacks come in between. */
module TimerArming {
  import opened Basics
  import opened TimerHeap
  import opened TimerExpiry

  const MS := 1_000_000

  function Millis(t: nat): nat { t / MS }

  /** The one-shot kernel timer: off, or readable from the absolute time `at` on. */
  datatype Timerfd = Disarmed | Armed(at: int)

  datatype State = State(heap: Heap, settime: int, fd: Timerfd)

  /** adjustTimerfd at time `u`: a relative one-shot, at least one nanosecond ahead. */
  function Adjust(u: nat, delay: int): Timerfd {
    Armed(u + if delay * MS < 1 then 1 else delay * MS)
  }

  /** The arming decision of `schedule`, for a heap already holding the new timer. */
  function Rearm(st: State, heap: Heap, t: nat, u: nat): (r: State)
    requires heap != []
  {
    var root := heap[0].expiredAt;
    if root != st.settime then State(heap, root, Adjust(u, root - Millis(t)))
    else st.(heap := heap)
  }

  /** `schedule` on valid parameters (timer_4heap.go:78-94). */
  function Schedule(st: State, t: nat, u: nat, id: nat, h: nat, delay: int, interval: int): (r: State) {
    Rearm(st, Insert(st.heap, Entry(id, Millis(t) + delay, interval, Some(h))), t, u)
  }

  /** A spent kernel timer is set again for a positive delay only (timer_4heap.go:64-66). */
  function AfterRead(u: nat, delay: int): Timerfd {
    if delay > 0 then Adjust(u, delay) else Disarmed
  }

  /** `OnRead` of the timerfd: the kernel timer is spent, due timers fire, the rest re-arms it. */
  function OnRead(st: State, t: nat, u: nat, cb: Callbacks): (r: State)
    requires NoSpin(st.heap, Millis(t), cb)
  {
    var (_, left, delay) := Expire(st.heap, Millis(t), cb);
    State(left, st.settime, AfterRead(u, delay))
  }

  // ----- Lateness -----

  /** How far `u` lies beyond the millisecond of `t`. */
  function Lag(t: nat, u: nat): nat {
    var end := (Millis(t) + 1) * MS;
    if u < end then 0 else u - end + 1
  }

  /** At time `now` the kernel timer is going to go off within the millisecond `key`, or less than
      `lag` nanoseconds after it is over, or else at once. */
  predicate InTime(fd: Timerfd, key: int, now: nat, lag: nat) {
    fd.Armed? && (fd.at < (key + 1) * MS + lag || fd.at <= now + 1)
  }

  /** Armed for a time still to come, the kernel timer is late by the lag of the arming, and by
      nothing else. */
  lemma ArmedInTimeIff(t: nat, u: nat, key: int, lag: nat)
    requires t <= u && key > Millis(t)
    ensures InTime(Adjust(u, key - Millis(t)), key, u, lag) <==> Lag(t, u) <= lag
  {
  }

  // ----- Runs -----

  datatype Event =
    | Scheduled(t: nat, u: nat, id: nat, h: nat, delay: int, interval: int)
    | Cancelled(t: nat, u: nat, id: nat)
    | Fired(t: nat, u: nat, cb: Callbacks)

  predicate PeriodOk(e: Entry) { e.interval == 0 || e.interval > SLACK }

  ghost predicate PeriodsOk(s: Heap) {
    forall e :: e in s ==> PeriodOk(e)
  }

  /** What may happen next: a timer with a period of 0 or more than the slack is scheduled, one is
      cancelled, or the expired kernel timer is read; the arming comes no more than `lag` after the
      millisecond of the reading is over. */
  ghost predicate Enabled(st: State, clock: nat, ev: Event, lag: nat) {
    clock <= ev.t <= ev.u && Lag(ev.t, ev.u) <= lag &&
    match ev
    case Scheduled(_, _, id, h, delay, interval) => delay >= 0 && (interval == 0 || interval > SLACK)
    case Cancelled(_, _, id) => true
    case Fired(t, _, cb) => st.fd.Armed? && st.fd.at <= t
  }

  /** No cancel, and no delay of 0. */
  predicate Plain(ev: Event) { !ev.Cancelled? && (ev.Scheduled? ==> ev.delay >= 1) }

  /** One event.  Nothing is said of a `handleExpired` that never returns. */
  ghost predicate Next(st: State, ev: Event, st': State) {
    match ev
    case Scheduled(t, u, id, h, delay, interval) => st' == Schedule(st, t, u, id, h, delay, interval)
    case Cancelled(t, u, id) => st' == st.(heap := Cancel(st.heap, id))
    case Fired(t, u, cb) => NoSpin(st.heap, Millis(t), cb) ==> st' == OnRead(st, t, u, cb)
  }

  // ----- The invariant -----

  /** The cache still describes the kernel timer. */
  predicate CacheCurrent(st: State, now: nat, lag: nat) {
    InTime(st.fd, st.settime, now, lag) && st.settime * MS <= st.fd.at
  }

  /** The cache is stale, but every pending timer is later than it, as will be every new one. */
  ghost predicate CacheHarmless(st: State, now: nat) {
    st.settime <= Millis(now) && LiveFrom(st.heap, st.settime + 1)
  }

  ghost predicate Inv(st: State, now: nat, lag: nat) {
    && Sound(st.heap)
    && PeriodsOk(st.heap)
    && (st.heap != [] ==> InTime(st.fd, st.heap[0].expiredAt, now, lag))
    && (CacheCurrent(st, now, lag) || CacheHarmless(st, now))
  }

  lemma InsertEntries(s: Heap, e: Entry, x: Entry)
    requires x in Insert(s, e)
    ensures x in s || x == e
  {
    InsertAdds(s, e);
    assert x in multiset(Insert(s, e));
  }

  lemma RearmKeepsInv(st: State, clock: nat, heap: Heap, e: Entry, t: nat, u: nat, lag: nat)
    requires Inv(st, clock, lag) && clock <= t <= u && Lag(t, u) <= lag && Millis(t) < e.expiredAt
    requires Sound(heap) && PeriodsOk(heap) && heap != []
    requires forall x :: x in heap ==> x in st.heap || x == e
    ensures Inv(Rearm(st, heap, t, u), u, lag)
  {
    var root := heap[0];
    assert root in heap && root.Live();
    assert Millis(clock) <= Millis(t) <= Millis(u);
  }

  /** An `Insert` seen from its entries. */
  lemma ScheduleFacts(s: Heap, e: Entry)
    requires Sound(s) && PeriodsOk(s) && e.Live() && e.expiredAt >= 1 && PeriodOk(e)
    ensures Sound(Insert(s, e)) && PeriodsOk(Insert(s, e)) && e in Insert(s, e)
    ensures forall x :: x in Insert(s, e) ==> x in s || x == e
  {
    InsertKeepsSound(s, e);
    InsertAdds(s, e);
    assert e in multiset(Insert(s, e));
    forall x | x in Insert(s, e) ensures x in s || x == e {
      InsertEntries(s, e, x);
    }
  }

  lemma ScheduleKeepsInv(st: State, clock: nat, t: nat, u: nat, id: nat, h: nat, delay: int, interval: int, lag: nat)
    requires Inv(st, clock, lag) && clock <= t <= u && Lag(t, u) <= lag && delay >= 1 && (interval == 0 || interval > SLACK)
    ensures Inv(Schedule(st, t, u, id, h, delay, interval), u, lag)
  {
    var e := Entry(id, Millis(t) + delay, interval, Some(h));
    ScheduleFacts(st.heap, e);
    RearmKeepsInv(st, clock, Insert(st.heap, e), e, t, u, lag);
  }

  lemma {:induction false} ExpireKeepsPeriods(s: Heap, now: int, cb: Callbacks)
    requires NoSpin(s, now, cb) && PeriodsOk(s)
    ensures PeriodsOk(Expire(s, now, cb).1)
    decreases |DueOf(s, now)|
  {
    PopIsRound(s, now, cb);
    var (e, _, r) := PopOne(s, now, SLACK);
    if e.Some? {
      var t := Settle(r, e.value, now, cb);
      RoundKeepsNoSpin(s, e.value, t, now, cb);
      RoundShrinks(s, e.value, t, now, cb);
      forall x | x in t ensures PeriodOk(x) {
        RoundEntries(s, e.value, t, now, cb, x);
        assert PeriodOk(e.value);
      }
      ExpireKeepsPeriods(t, now, cb);
    }
  }

  /** The invariant alone makes `handleExpired` return, whatever the callbacks answer. */
  lemma PeriodsDoNotSpin(s: Heap, now: int, cb: Callbacks)
    requires PeriodsOk(s)
    ensures NoSpin(s, now, cb)
  {
    forall e | e in s ensures !Spins(e, now, cb) {
      assert PeriodOk(e);
    }
  }

  lemma OnReadKeepsInv(st: State, clock: nat, t: nat, u: nat, cb: Callbacks, lag: nat)
    requires Inv(st, clock, lag) && clock <= t <= u && Lag(t, u) <= lag && st.fd.Armed? && st.fd.at <= t
    ensures NoSpin(st.heap, Millis(t), cb) && Inv(OnRead(st, t, u, cb), u, lag)
  {
    var now := Millis(t);
    PeriodsDoNotSpin(st.heap, now, cb);
    CancelFreeExpire(st.heap, now, cb);
    ExpireKeepsPeriods(st.heap, now, cb);
    AfterExpiry(st, clock, t, u, Expire(st.heap, now, cb).1, Expire(st.heap, now, cb).2, lag);
  }

  lemma AfterExpiry(st: State, clock: nat, t: nat, u: nat, left: Heap, delay: int, lag: nat)
    requires Inv(st, clock, lag) && clock <= t <= u && Lag(t, u) <= lag && st.fd.Armed? && st.fd.at <= t
    requires Sound(left) && PeriodsOk(left) && LiveFrom(left, Millis(t) + SLACK + 1)
    requires left != [] ==> left[0].expiredAt > Millis(t) + SLACK
    requires delay == if left == [] then 0 else left[0].expiredAt - Millis(t)
    ensures Inv(State(left, st.settime, AfterRead(u, delay)), u, lag)
  {
    assert st.settime <= Millis(t) <= Millis(u);
    LiveFromWeaker(left, Millis(t) + SLACK + 1, st.settime + 1);
    if left != [] {
      ArmedInTimeIff(t, u, left[0].expiredAt, lag);
    }
  }

  /** The exact condition, for any heap: with entries left, the timerfd set at the end of `OnRead` is
      in time for the root exactly when the callbacks did not take longer than `lag` beyond the
      millisecond in which the clock was read. */
  lemma OnReadInTimeIff(st: State, t: nat, u: nat, cb: Callbacks, lag: nat)
    requires t <= u && NoSpin(st.heap, Millis(t), cb)
    ensures var r := OnRead(st, t, u, cb);
            r.heap != [] ==> (InTime(r.fd, r.heap[0].expiredAt, u, lag) <==> Lag(t, u) <= lag)
  {
    ExpireGap(st.heap, Millis(t), cb);
    var left := Expire(st.heap, Millis(t), cb).1;
    if left != [] {
      ArmedInTimeIff(t, u, left[0].expiredAt, lag);
    }
  }

  /** A callback that takes a millisecond makes the timerfd late for a timer due in 5 ms. */
  lemma SlowCallbackIsLate(t: nat, cb: Callbacks)
    ensures var e := Entry(0, Millis(t) + 5, 0, Some(0));
            var st := State([e], Millis(t) + 5, Armed(t));
            && NoSpin(st.heap, Millis(t), cb)
            && OnRead(st, t, t + MS, cb).heap == [e] && !InTime(OnRead(st, t, t + MS, cb).fd, e.expiredAt, t + MS, 0)
  {
    var e := Entry(0, Millis(t) + 5, 0, Some(0));
    assert PopOne([e], Millis(t), SLACK) == (None, 5, [e]);
  }

  /** The time at which the event before the `i`-th was over. */
  function ClockAt(evs: seq<Event>, i: nat, clock: nat): nat
    requires i <= |evs|
  {
    if i == 0 then clock else evs[i - 1].u
  }

  /** Event `i` leads from the `i`-th state to the next. */
  ghost predicate StepAt(trace: seq<State>, evs: seq<Event>, clock: nat, lag: nat, i: nat)
    requires i < |evs| < |trace|
  {
    Enabled(trace[i], ClockAt(evs, i, clock), evs[i], lag) && Next(trace[i], evs[i], trace[i + 1])
  }

  ghost predicate IsRun(trace: seq<State>, evs: seq<Event>, clock: nat, lag: nat) {
    && |trace| == |evs| + 1
    && (forall i :: 0 <= i < |evs| ==> StepAt(trace, evs, clock, lag, i))
  }

  /** In every run without cancels and delays of 0 whose armings lag by no more than `lag`, whenever a timer is
      pending the kernel timer is armed to go off no more than that after the earliest expiry (or
      at once if that is past); and `handleExpired` can never fail to return. */
  lemma {:induction false} PendingTimerIsArmed(trace: seq<State>, evs: seq<Event>, clock: nat, lag: nat, n: nat)
    requires IsRun(trace, evs, clock, lag) && trace[0] == State([], 0, Disarmed) && n <= |evs|
    requires forall i :: 0 <= i < |evs| ==> Plain(evs[i])
    ensures Inv(trace[n], ClockAt(evs, n, clock), lag)
    ensures forall e :: e in trace[n].heap ==> InTime(trace[n].fd, e.expiredAt, ClockAt(evs, n, clock), lag)
    ensures forall now: int, cb: Callbacks :: NoSpin(trace[n].heap, now, cb)
  {
    if n > 0 {
      PendingTimerIsArmed(trace, evs, clock, lag, n - 1);
      var st, before, ev := trace[n - 1], ClockAt(evs, n - 1, clock), evs[n - 1];
      assert StepAt(trace, evs, clock, lag, n - 1) && Plain(ev);
      match ev
      case Scheduled(t, u, id, h, delay, interval) => ScheduleKeepsInv(st, before, t, u, id, h, delay, interval, lag);
      case Fired(t, u, cb) => OnReadKeepsInv(st, before, t, u, cb, lag);
    }
    RootInTimeForAll(trace[n], ClockAt(evs, n, clock), lag);
    forall now: int, cb: Callbacks ensures NoSpin(trace[n].heap, now, cb) {
      PeriodsDoNotSpin(trace[n].heap, now, cb);
    }
  }

  lemma RootInTimeForAll(st: State, now: nat, lag: nat)
    requires Inv(st, now, lag)
    ensures forall e :: e in st.heap ==> InTime(st.fd, e.expiredAt, now, lag)
  {
    forall e | e in st.heap ensures InTime(st.fd, e.expiredAt, now, lag) {
      var j :| 0 <= j < |st.heap| && st.heap[j] == e;
      RootIsEarliest(st.heap, j);
    }
  }

  // ----- Delay 0 -----

  /** The one way `schedule` can leave the earliest timer unserved: a delay of 0 in exactly
      the millisecond the stale cache names. */
  lemma ScheduleInTimeIff(st: State, clock: nat, t: nat, u: nat, id: nat, h: nat, delay: nat, interval: int, lag: nat)
    requires Inv(st, clock, lag) && clock <= t <= u && Lag(t, u) <= lag
    requires Millis(t) >= 1 && (interval == 0 || interval > SLACK)
    ensures var r := Schedule(st, t, u, id, h, delay, interval);
            r.heap != [] &&
            (InTime(r.fd, r.heap[0].expiredAt, u, lag)
             <==> !(delay == 0 && st.settime == Millis(t) && !InTime(st.fd, st.settime, u, lag)))
  {
    var e := Entry(id, Millis(t) + delay, interval, Some(h));
    ScheduleFacts(st.heap, e);
    RearmInTimeIff(st, clock, Insert(st.heap, e), e, t, u, lag);
  }

  lemma RearmInTimeIff(st: State, clock: nat, heap: Heap, e: Entry, t: nat, u: nat, lag: nat)
    requires Inv(st, clock, lag) && clock <= t <= u && Lag(t, u) <= lag && Millis(t) <= e.expiredAt && e.Live()
    requires Sound(heap) && e in heap && forall x :: x in heap ==> x in st.heap || x == e
    ensures InTime(Rearm(st, heap, t, u).fd, heap[0].expiredAt, u, lag)
            <==> !(e.expiredAt == Millis(t) && st.settime == Millis(t) && !InTime(st.fd, st.settime, u, lag))
  {
    var root := heap[0];
    assert root in heap && root.Live();
    var j :| 0 <= j < |heap| && heap[j] == e;
    RootIsEarliest(heap, j);
    assert Millis(clock) <= Millis(t);
    if root in st.heap {
      RootInTimeForAll(st, clock, lag);
    }
  }

  /** A delay of 0 is accepted but can be lost: a timer fires in the millisecond it was armed
      for, and one scheduled with delay 0 in that millisecond leaves the kernel timer off. */
  lemma ZeroDelayCanBeLost(t0: nat, t1: nat, cb: Callbacks)
    requires Millis(t1) == Millis(t0) + 1
    ensures var s1 := Schedule(State([], 0, Disarmed), t0, t0, 0, 0, 1, 0);
            && NoSpin(s1.heap, Millis(t1), cb)
            && var s2 := Schedule(OnRead(s1, t1, t1, cb), t1, t1, 1, 1, 0, 0);
               s2.heap != [] && s2.heap[0].expiredAt == Millis(t1) && s2.fd == Disarmed
  {
    var k := Millis(t1);
    var e := Entry(0, k, 0, Some(0));
    InsertFirst(e);
    InsertFirst(Entry(1, k, 0, Some(1)));
    ExpireSingle(e, k, cb);
  }

  lemma InsertFirst(e: Entry)
    ensures Insert([], e) == [e]
  {
    assert [] + [e] == [e];
  }

  lemma ExpireSingle(e: Entry, now: int, cb: Callbacks)
    requires e.Live() && Due(e, now) && e.interval == 0
    ensures NoSpin([e], now, cb) && Expire([e], now, cb) == ([e], [], 0)
  {
    assert [e][0 := e][..0] == [];
    assert PopOne([e], now, SLACK) == (Some(e), 0, []);
    assert Settle([], e, now, cb) == [];
    assert Expire([], now, cb) == ([], [], 0);
    assert [e] + Expire([], now, cb).0 == [e];
  }

  // ----- Cancelled roots -----

  /** The kernel timer is in time for every live timer. */
  ghost predicate Served(st: State, now: nat) {
    forall e :: e in st.heap && e.Live() ==> InTime(st.fd, e.expiredAt, now, 0)
  }

  /** With cancelled entries on the heap, in any order, whether `schedule` keeps every live timer
      served: when the cache names the root, exactly if the kernel timer as it stands is in time for
      the new one; otherwise exactly if the root is past or no live timer is earlier. */
  lemma ScheduleServesIff(st: State, clock: nat, t: nat, u: nat, id: nat, h: nat, delay: nat, interval: int)
    requires Served(st, clock) && clock <= t <= u && Lag(t, u) == 0
    ensures var e := Entry(id, Millis(t) + delay, interval, Some(h));
            var heap := Insert(st.heap, e);
            && heap != []
            && (Served(Schedule(st, t, u, id, h, delay, interval), u)
                <==> if heap[0].expiredAt == st.settime then InTime(st.fd, e.expiredAt, u, 0)
                     else heap[0].expiredAt <= Millis(t) || LiveFrom(heap, heap[0].expiredAt))
  {
    var e := Entry(id, Millis(t) + delay, interval, Some(h));
    var heap := Insert(st.heap, e);
    InsertAdds(st.heap, e);
    assert e in multiset(heap);
    forall x | x in heap ensures x in st.heap || x == e {
      InsertEntries(st.heap, e, x);
    }
    ServesIff(st, clock, heap, e, t, u);
  }

  lemma ServesIff(st: State, clock: nat, heap: Heap, e: Entry, t: nat, u: nat)
    requires Served(st, clock) && clock <= t <= u && Lag(t, u) == 0
    requires e in heap && e.Live() && (forall x :: x in heap ==> x in st.heap || x == e)
    ensures Served(Rearm(st, heap, t, u), u)
            <==> if heap[0].expiredAt == st.settime then InTime(st.fd, e.expiredAt, u, 0)
                 else heap[0].expiredAt <= Millis(t) || LiveFrom(heap, heap[0].expiredAt)
  {
    var root := heap[0].expiredAt;
    if root != st.settime && root > Millis(t) {
      forall x | x in heap && x.Live() ensures InTime(Adjust(u, root - Millis(t)), x.expiredAt, u, 0) <==> root <= x.expiredAt {
      }
    }
  }

  lemma OrderlyRootIsEarliest(s: Heap, now: nat, cb: Callbacks)
    requires Tidy(s) && NoSpin(s, now, cb) && OrderlyRounds(s, now, cb, |DueOf(s, now)|)
    ensures var left := Expire(s, now, cb).1; left == [] || LiveFrom(left, left[0].expiredAt)
  {
    ExpireFiresExactlyTheDue(s, now, cb);
    var left := Expire(s, now, cb).1;
    forall x | x in left && x.Live() ensures left[0].expiredAt <= x.expiredAt {
      var j :| 0 <= j < |left| && left[j] == x;
      RootIsEarliest(left, j);
    }
  }

  /** A read of the timerfd, on any heap, leaves every live timer served exactly if none is earlier
      than the root; so it does if no renewal was shielded. */
  lemma OnReadServesIff(st: State, t: nat, u: nat, cb: Callbacks)
    requires t <= u && Lag(t, u) == 0 && NoSpin(st.heap, Millis(t), cb)
    ensures var r := OnRead(st, t, u, cb);
            Served(r, u) <==> r.heap == [] || LiveFrom(r.heap, r.heap[0].expiredAt)
    ensures Tidy(st.heap) && OrderlyRounds(st.heap, Millis(t), cb, |DueOf(st.heap, Millis(t))|)
            ==> Served(OnRead(st, t, u, cb), u)
  {
    var left := Expire(st.heap, Millis(t), cb).1;
    ExpireGap(st.heap, Millis(t), cb);
    if left != [] {
      ArmedServesIff(left, t, u);
    }
    if Tidy(st.heap) && OrderlyRounds(st.heap, Millis(t), cb, |DueOf(st.heap, Millis(t))|) {
      OrderlyRootIsEarliest(st.heap, Millis(t), cb);
    }
  }

  lemma ArmedServesIff(heap: Heap, t: nat, u: nat)
    requires heap != [] && heap[0].expiredAt > Millis(t) && t <= u && Lag(t, u) == 0
    ensures (forall x :: x in heap && x.Live() ==> InTime(Adjust(u, heap[0].expiredAt - Millis(t)), x.expiredAt, u, 0))
            <==> LiveFrom(heap, heap[0].expiredAt)
  {
    var root := heap[0].expiredAt;
    forall x | x in heap && x.Live() ensures InTime(Adjust(u, root - Millis(t)), x.expiredAt, u, 0) <==> root <= x.expiredAt {
    }
  }

  /** With a shielded renewal it does not: the timer renewed for 60 waits for the timerfd set for 100. */
  lemma ShieldedRenewalUnserved(t: nat, cb: Callbacks)
    requires Millis(t) == 10 && cb(0)
    ensures var st := State(ShieldingHeap(50), 10, Armed(t));
            && Tidy(st.heap) && NoSpin(st.heap, 10, cb)
            && var r := OnRead(st, t, t, cb);
               r.heap == ShieldedHeap(50) && r.fd == Armed(t + 90 * MS)
               && r.heap[8].Live() && r.heap[8].expiredAt == 60 && !Served(r, t)
  {
    var s, left := ShieldingHeap(50), ShieldedHeap(50);
    ShieldingTidy(50);
    ShieldingPop(50);
    ShieldingSettles(50, cb);
    assert PopOne(left, 10, SLACK) == (None, 90, left);
    assert NoSpin(s, 10, cb);
    assert Expire(left, 10, cb) == ([], left, 90);
    assert Expire(s, 10, cb).1 == left && Expire(s, 10, cb).2 == 90;
    assert left[8] in left;
  }

  // ----- Runs with cancels -----

  /** What the kernel timer is set for after an event that leaves `heap`: the key of the root when it
      is set, none when it is spent and not set again, and otherwise what it was set for before. */
  function NextAim(st: State, ev: Event, heap: Heap, aim: Option<int>): Option<int> {
    match ev
    case Scheduled(_, _, _, _, _, _) => if heap != [] && heap[0].expiredAt != st.settime then Some(heap[0].expiredAt) else aim
    case Cancelled(_, _, _) => aim
    case Fired(_, _, _) => if heap == [] then None else Some(heap[0].expiredAt)
  }

  /** What it was set for last before event `i`. */
  function Aim(trace: seq<State>, evs: seq<Event>, i: nat): Option<int>
    requires i <= |evs| < |trace|
  {
    if i == 0 then None else NextAim(trace[i - 1], evs[i - 1], trace[i].heap, Aim(trace, evs, i - 1))
  }

  /** The kernel timer has gone off, or does so at once. */
  predicate Ready(fd: Timerfd, now: nat) { fd.Armed? && fd.at <= now + 1 }

  /** The kernel timer stands as the aim says. */
  predicate AimedAt(fd: Timerfd, aim: Option<int>, now: nat) {
    match aim
    case None => fd == Disarmed
    case Some(key) => fd.Armed? && (Ready(fd, now) || key * MS <= fd.at < (key + 1) * MS)
  }

  /** So it is in time for a timer exactly if it is aimed no later, or ready. */
  lemma AimedInTimeIff(fd: Timerfd, aim: Option<int>, now: nat, key: int)
    requires AimedAt(fd, aim, now)
    ensures InTime(fd, key, now, 0) <==> Ready(fd, now) || (aim.Some? && aim.value <= key)
  {
  }

  lemma AdjustAims(t: nat, u: nat, key: int)
    requires t <= u && Lag(t, u) == 0
    ensures AimedAt(Adjust(u, key - Millis(t)), Some(key), u)
  {
  }

  lemma EventKeepsAim(st: State, now: nat, ev: Event, st': State, aim: Option<int>)
    requires Enabled(st, now, ev, 0) && Next(st, ev, st') && PeriodsOk(st.heap) && AimedAt(st.fd, aim, now)
    ensures AimedAt(st'.fd, NextAim(st, ev, st'.heap, aim), ev.u)
  {
    match ev
    case Scheduled(t, u, id, h, delay, interval) => AdjustAims(t, u, st'.heap[0].expiredAt);
    case Cancelled(t, u, id) =>
    case Fired(t, u, cb) =>
      PeriodsDoNotSpin(st.heap, Millis(t), cb);
      ExpireGap(st.heap, Millis(t), cb);
      if st'.heap != [] {
        AdjustAims(t, u, st'.heap[0].expiredAt);
      }
  }

  lemma EventKeepsPeriods(st: State, now: nat, ev: Event, st': State)
    requires Enabled(st, now, ev, 0) && Next(st, ev, st') && PeriodsOk(st.heap)
    ensures PeriodsOk(st'.heap)
  {
    match ev
    case Scheduled(t, u, id, h, delay, interval) =>
      forall x | x in st'.heap ensures PeriodOk(x) {
        InsertEntries(st.heap, Entry(id, Millis(t) + delay, interval, Some(h)), x);
      }
    case Cancelled(t, u, id) =>
      forall x | x in st'.heap ensures PeriodOk(x) {
        var j :| 0 <= j < |st'.heap| && st'.heap[j] == x;
        assert PeriodOk(st.heap[j]);
      }
    case Fired(t, u, cb) =>
      PeriodsDoNotSpin(st.heap, Millis(t), cb);
      ExpireKeepsPeriods(st.heap, Millis(t), cb);
  }

  lemma {:induction false} RunKeepsAim(trace: seq<State>, evs: seq<Event>, clock: nat, n: nat)
    requires IsRun(trace, evs, clock, 0) && trace[0] == State([], 0, Disarmed) && n <= |evs|
    ensures PeriodsOk(trace[n].heap) && AimedAt(trace[n].fd, Aim(trace, evs, n), ClockAt(evs, n, clock))
  {
    if n > 0 {
      RunKeepsAim(trace, evs, clock, n - 1);
      assert StepAt(trace, evs, clock, 0, n - 1);
      var now := ClockAt(evs, n - 1, clock);
      EventKeepsAim(trace[n - 1], now, evs[n - 1], trace[n], Aim(trace, evs, n - 1));
      EventKeepsPeriods(trace[n - 1], now, evs[n - 1], trace[n]);
    }
  }

  /** Over every run, cancels included, whose armings come in the millisecond of the reading: every
      live timer is served exactly if none is earlier than what the kernel timer was set for last,
      or that has gone off. */
  lemma RunServedIff(trace: seq<State>, evs: seq<Event>, clock: nat, n: nat)
    requires IsRun(trace, evs, clock, 0) && trace[0] == State([], 0, Disarmed) && n <= |evs|
    ensures var st, now, aim := trace[n], ClockAt(evs, n, clock), Aim(trace, evs, n);
            Served(st, now)
            <==> Ready(st.fd, now) || forall e :: e in st.heap && e.Live() ==> aim.Some? && aim.value <= e.expiredAt
  {
    RunKeepsAim(trace, evs, clock, n);
    var st, now, aim := trace[n], ClockAt(evs, n, clock), Aim(trace, evs, n);
    forall e | e in st.heap && e.Live()
      ensures InTime(st.fd, e.expiredAt, now, 0) <==> Ready(st.fd, now) || (aim.Some? && aim.value <= e.expiredAt)
    {
      AimedInTimeIff(st.fd, aim, now, e.expiredAt);
    }
  }

  /** What an event that leaves `heap` must meet to leave every live timer served that was so before.
      A schedule that finds its root in the cache must find the kernel timer set for no later than
      the new timer, or gone off; any other must find its root past, or leave no live timer earlier,
      and so must a read of the timerfd.  A cancel is free. */
  ghost predicate Serves(st: State, ev: Event, heap: Heap, aim: Option<int>) {
    match ev
    case Scheduled(t, u, id, h, delay, interval) =>
      heap != [] &&
      if heap[0].expiredAt == st.settime then Ready(st.fd, u) || (aim.Some? && aim.value <= Millis(t) + delay)
      else heap[0].expiredAt <= Millis(t) || LiveFrom(heap, heap[0].expiredAt)
    case Cancelled(t, u, id) => true
    case Fired(t, u, cb) => heap == [] || LiveFrom(heap, heap[0].expiredAt)
  }

  lemma CancelServes(st: State, now: nat, u: nat, id: nat)
    requires Served(st, now) && now <= u
    ensures Served(st.(heap := Cancel(st.heap, id)), u)
  {
    var heap := Cancel(st.heap, id);
    forall x | x in heap && x.Live() ensures InTime(st.fd, x.expiredAt, u, 0) {
      var j :| 0 <= j < |heap| && heap[j] == x;
      assert st.heap[j] == x;
    }
  }

  lemma EventServedIff(st: State, now: nat, ev: Event, st': State, aim: Option<int>)
    requires Enabled(st, now, ev, 0) && Next(st, ev, st') && PeriodsOk(st.heap) && AimedAt(st.fd, aim, now)
    requires Served(st, now)
    ensures Served(st', ev.u) <==> Serves(st, ev, st'.heap, aim)
  {
    match ev
    case Scheduled(t, u, id, h, delay, interval) =>
      ScheduleServesIff(st, now, t, u, id, h, delay, interval);
      AimedInTimeIff(st.fd, aim, u, Millis(t) + delay);
    case Cancelled(t, u, id) => CancelServes(st, now, u, id);
    case Fired(t, u, cb) =>
      PeriodsDoNotSpin(st.heap, Millis(t), cb);
      OnReadServesIff(st, t, u, cb);
  }

  /** Event `i` of the run does that. */
  ghost predicate ServesAt(trace: seq<State>, evs: seq<Event>, i: nat)
    requires i < |evs| < |trace|
  {
    Serves(trace[i], evs[i], trace[i + 1].heap, Aim(trace, evs, i))
  }

  /** State `i` of the run has every live timer served. */
  ghost predicate ServedAt(trace: seq<State>, evs: seq<Event>, clock: nat, i: nat)
    requires i <= |evs| < |trace|
  {
    Served(trace[i], ClockAt(evs, i, clock))
  }

  lemma StepServedIff(trace: seq<State>, evs: seq<Event>, clock: nat, n: nat)
    requires IsRun(trace, evs, clock, 0) && trace[0] == State([], 0, Disarmed) && n < |evs|
    requires ServedAt(trace, evs, clock, n)
    ensures ServedAt(trace, evs, clock, n + 1) <==> ServesAt(trace, evs, n)
  {
    RunKeepsAim(trace, evs, clock, n);
    assert StepAt(trace, evs, clock, 0, n);
    EventServedIff(trace[n], ClockAt(evs, n, clock), evs[n], trace[n + 1], Aim(trace, evs, n));
  }

  /** So every live timer is served in every state of a run exactly if every event of it does that. */
  lemma {:induction false} AlwaysServedIff(trace: seq<State>, evs: seq<Event>, clock: nat, n: nat)
    requires IsRun(trace, evs, clock, 0) && trace[0] == State([], 0, Disarmed) && n <= |evs|
    ensures (forall i :: 0 <= i <= n ==> ServedAt(trace, evs, clock, i))
            <==> forall i :: 0 <= i < n ==> ServesAt(trace, evs, i)
  {
    if n > 0 {
      AlwaysServedIff(trace, evs, clock, n - 1);
      if ServedAt(trace, evs, clock, n - 1) {
        StepServedIff(trace, evs, clock, n - 1);
      }
    }
  }

  lemma InsertSecond(a: Entry, b: Entry)
    requires a.expiredAt <= b.expiredAt
    ensures Insert([a], b) == [a, b]
  {
    assert [a] + [b] == [a, b];
    assert Parent(1) == 0;
  }

  lemma CancelOnly(e: Entry)
    ensures Cancel([e], e.id) == [e.Cancelled()]
  {
  }

  lemma ExpireCancelled(a: Entry, b: Entry, now: nat, cb: Callbacks)
    requires a.eh == None && Due(a, now) && !Due(b, now)
    ensures NoSpin([a, b], now, cb) && Expire([a, b], now, cb) == ([], [b], b.expiredAt - now)
  {
    assert [a, b][0 := b][..1] == [b];
    assert PopOne([b], now, SLACK) == (None, b.expiredAt - now, [b]);
    assert Expire([b], now, cb) == ([], [b], b.expiredAt - now);
  }

  /** It happens: a timer is scheduled and cancelled, a second one scheduled for `far` milliseconds,
      the kernel timer read, the second cancelled; a third scheduled for `delay` milliseconds then
      leaves the kernel timer set for the second, however late that is. */
  lemma CancelledRootHidesTimer(t: nat, t': nat, delay: nat, far: nat, cb: Callbacks)
    requires t < t' && Millis(t') == Millis(t) >= 1 && 1 <= delay < far && far > SLACK
    ensures var s1 := Schedule(State([], 0, Disarmed), t, t, 0, 0, 100, 0);
            var s2 := Schedule(s1.(heap := Cancel(s1.heap, 0)), t, t, 1, 1, far, 0);
            && s2.fd.Armed? && s2.fd.at <= t' && NoSpin(s2.heap, Millis(t'), cb)
            && var s3 := OnRead(s2, t', t', cb);
               var s4 := Schedule(s3.(heap := Cancel(s3.heap, 1)), t', t', 2, 2, delay, 0);
               var third := Entry(2, Millis(t') + delay, 0, Some(2));
               s4.heap == [Entry(1, 1, 0, None), third] && s4.fd == Armed(t' + far * 1_000_000)
               && !InTime(s4.fd, third.expiredAt, t', 0)
  {
    var m := Millis(t);
    var a, b, c := Entry(0, m + 100, 0, Some(0)), Entry(1, m + far, 0, Some(1)), Entry(2, m + delay, 0, Some(2));
    InsertFirst(a);
    CancelOnly(a);
    InsertSecond(a.Cancelled(), b);
    ExpireCancelled(a.Cancelled(), b, m, cb);
    CancelOnly(b);
    InsertSecond(b.Cancelled(), c);
  }
}
