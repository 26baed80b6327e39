/** `handleExpired` (timer_4heap.go:117-141): firing the due timers of a heap and
    re-arming the periodic ones, for callbacks that only answer whether the timer
    goes on.  `cb` gives that answer for each handler. */
module TimerExpiry {
  import opened Basics
  import opened TimerHeap

  /** Timers due within this many milliseconds fire at once (timer_4heap.go:125). */
  const SLACK := 2

  type Callbacks = nat -> bool

  predicate Due(e: Entry, now: int) { e.expiredAt <= now + SLACK }

  /** The timer goes on after firing. */
  predicate Renews(e: Entry, cb: Callbacks) { e.Live() && e.interval > 0 && cb(e.eh.value) }

  function Rearmed(e: Entry, now: int): Entry { e.(expiredAt := now + e.interval) }

  /** The heap after the loop body has dealt with `e`, popped from `r`. */
  function Settle(r: Heap, e: Entry, now: int, cb: Callbacks): Heap {
    if Renews(e, cb) then Insert(r, Rearmed(e, now)) else r
  }

  /** A due timer whose period fits in the slack: due again as soon as it is re-armed. */
  predicate Spins(e: Entry, now: int, cb: Callbacks) { Due(e, now) && Renews(e, cb) && e.interval <= SLACK }

  ghost predicate NoSpin(s: Heap, now: int, cb: Callbacks) {
    forall e :: e in s ==> !Spins(e, now, cb)
  }

  // ----- Counting the due timers -----

  function DueOf(s: Heap, now: int): (d: seq<Entry>)
  {
    if s == [] then []
    else DueOf(s[..|s| - 1], now) + (if Due(s[|s| - 1], now) then [s[|s| - 1]] else [])
  }

  lemma {:induction false} DueOfCount(s: Heap, now: int, e: Entry)
    ensures multiset(DueOf(s, now))[e] == if Due(e, now) then multiset(s)[e] else 0
  {
    if s != [] {
      DueOfCount(s[..|s| - 1], now, e);
      assert s == s[..|s| - 1] + [s[|s| - 1]];
    }
  }

  /** One round of the loop, on entries alone: due `e` leaves `s`, `t` is what remains
      plus the renewal of `e`. */
  ghost predicate Round(s: Heap, e: Entry, t: Heap, now: int, cb: Callbacks) {
    && Due(e, now)
    && e in s
    && multiset(t) == multiset(s) - multiset{e} + (if Renews(e, cb) then multiset{Rearmed(e, now)} else multiset{})
  }

  lemma RoundEntries(s: Heap, e: Entry, t: Heap, now: int, cb: Callbacks, x: Entry)
    requires Round(s, e, t, now, cb) && x in t
    ensures x in s || (Renews(e, cb) && x == Rearmed(e, now))
  {
    assert x in multiset(t);
  }

  lemma RoundKeepsNoSpin(s: Heap, e: Entry, t: Heap, now: int, cb: Callbacks)
    requires Round(s, e, t, now, cb) && NoSpin(s, now, cb)
    ensures NoSpin(t, now, cb)
  {
    forall x | x in t ensures !Spins(x, now, cb) {
      RoundEntries(s, e, t, now, cb, x);
    }
  }

  /** A round leaves one due timer fewer. */
  lemma RoundShrinks(s: Heap, e: Entry, t: Heap, now: int, cb: Callbacks)
    requires Round(s, e, t, now, cb) && !Spins(e, now, cb)
    ensures multiset(DueOf(t, now)) == multiset(DueOf(s, now)) - multiset{e}
    ensures |DueOf(t, now)| == |DueOf(s, now)| - 1
  {
    forall x ensures multiset(DueOf(t, now))[x] == (multiset(DueOf(s, now)) - multiset{e})[x] {
      DueOfCount(s, now, x);
      DueOfCount(t, now, x);
    }
    DueOfCount(s, now, e);
    assert |multiset(DueOf(s, now)) - multiset{e}| == |multiset(DueOf(s, now))| - 1;
    assert |multiset(DueOf(s, now))| == |DueOf(s, now)|;
    assert |multiset(DueOf(t, now))| == |DueOf(t, now)|;
  }

  lemma PopIsRound(s: Heap, now: int, cb: Callbacks)
    ensures var (e, _, r) := PopOne(s, now, SLACK);
            e.Some? ==> Round(s, e.value, Settle(r, e.value, now, cb), now, cb)
  {
    PopOneTakes(s, now, SLACK);
    var (e, _, r) := PopOne(s, now, SLACK);
    if e.Some? {
      InsertAdds(r, Rearmed(e.value, now));
    }
  }

  /** The whole loop: the timers it fires in order, the heap it leaves, the delay it returns. */
  function Expire(s: Heap, now: int, cb: Callbacks): (r: (seq<Entry>, Heap, int))
    requires NoSpin(s, now, cb)
    decreases |DueOf(s, now)|
  {
    var (e, delta, rest) := PopOne(s, now, SLACK);
    if e.None? then ([], s, delta)
    else
      var t := Settle(rest, e.value, now, cb);
      PopIsRound(s, now, cb);
      RoundKeepsNoSpin(s, e.value, t, now, cb);
      RoundShrinks(s, e.value, t, now, cb);
      var (fired, left, gap) := Expire(t, now, cb);
      (if e.value.Live() then [e.value] + fired else fired, left, gap)
  }

  // ----- Ordered heaps, with and without cancelled entries -----

  /** The live timers are in order; entries may be cancelled. */
  ghost predicate Tidy(s: Heap) { LiveOrdered(s) && WellKeyed(s) }

  /** No cancelled entry shields the renewal of `e` from rising far enough on `r`. */
  ghost predicate OrderlyRenewal(r: Heap, e: Entry, now: int, cb: Callbacks) {
    Renews(e, cb) ==> Orderly(r, DoInsert(Rearmed(e, now)))
  }

  /** Nor does that happen in the first `n` rounds of the loop of `handleExpired`. */
  ghost predicate OrderlyRounds(s: Heap, now: int, cb: Callbacks, n: nat)
    decreases n
  {
    var (e, _, r) := PopOne(s, now, SLACK);
    n == 0 || e.None?
    || (OrderlyRenewal(r, e.value, now, cb) && OrderlyRounds(Settle(r, e.value, now, cb), now, cb, n - 1))
  }

  lemma PopOneKeepsTidy(s: Heap, now: int)
    requires Tidy(s)
    ensures Tidy(PopOne(s, now, SLACK).2)
  {
    PopOneKeepsOrder(s, now, SLACK);
  }

  /** A round keeps the live timers in order exactly when its renewal is not shielded. */
  lemma SettleTidyIff(r: Heap, e: Entry, now: int, cb: Callbacks)
    requires Tidy(r) && now >= 0
    ensures Tidy(Settle(r, e, now, cb)) <==> OrderlyRenewal(r, e, now, cb)
  {
    if Renews(e, cb) {
      InsertOrdersIff(r, Rearmed(e, now));
    }
  }

  /** An ordered heap in which nothing is cancelled. */
  ghost predicate Sound(s: Heap) { Tidy(s) && AllLive(s) }

  /** Ordinary 4-ary heap order. */
  ghost predicate HeapOrdered(s: Heap) {
    forall i :: 0 < i < |s| ==> s[Parent(i)].expiredAt <= s[i].expiredAt
  }

  lemma {:induction false} HeapOrderedAbove(s: Heap, i: nat, j: nat)
    requires HeapOrdered(s) && Above(i, j) && j < |s|
    ensures s[i].expiredAt <= s[j].expiredAt
    decreases j
  {
    if Parent(j) != i {
      HeapOrderedAbove(s, i, Parent(j));
    }
  }

  /** Without cancelled entries the order of live timers is ordinary heap order. */
  lemma LiveOrderIsHeapOrder(s: Heap)
    requires AllLive(s)
    ensures LiveOrdered(s) <==> HeapOrdered(s)
  {
    if LiveOrdered(s) {
      forall i | 0 < i < |s| ensures s[Parent(i)].expiredAt <= s[i].expiredAt {
        assert Above(Parent(i), i);
      }
    }
    if HeapOrdered(s) {
      forall i, j | 0 <= i < |s| && 0 <= j < |s| && Above(i, j) ensures s[i].expiredAt <= s[j].expiredAt {
        HeapOrderedAbove(s, i, j);
      }
    }
  }

  lemma AllLiveIn(s: Heap)
    ensures AllLive(s) <==> forall e :: e in multiset(s) ==> e.Live()
  {
    if forall e :: e in multiset(s) ==> e.Live() {
      forall i | 0 <= i < |s| ensures s[i].Live() {
        assert s[i] in multiset(s);
      }
    }
  }

  lemma InsertKeepsSound(s: Heap, e: Entry)
    requires Sound(s) && e.Live() && e.expiredAt >= 1
    ensures Sound(Insert(s, e))
  {
    InsertOrdersIff(s, e);
    InsertAdds(s, e);
    AllLiveIn(s);
    AllLiveIn(Insert(s, e));
  }

  lemma PopOneKeepsSound(s: Heap, now: int)
    requires Sound(s)
    ensures Sound(PopOne(s, now, SLACK).2)
    ensures PopOne(s, now, SLACK).0.Some? ==> PopOne(s, now, SLACK).0.value.Live() && PopOne(s, now, SLACK).0.value.expiredAt >= 1
  {
    PopOneKeepsOrder(s, now, SLACK);
    PopOneTakes(s, now, SLACK);
    AllLiveIn(s);
    AllLiveIn(PopOne(s, now, SLACK).2);
  }

  lemma SettleKeepsSound(r: Heap, e: Entry, now: int, cb: Callbacks)
    requires Sound(r) && now >= 0
    ensures Sound(Settle(r, e, now, cb))
  {
    if Renews(e, cb) {
      InsertKeepsSound(r, Rearmed(e, now));
    }
  }

  /** Without cancelled entries nothing is ever shielded. */
  lemma {:induction false} SoundIsOrderly(s: Heap, now: int, cb: Callbacks, n: nat)
    requires Sound(s) && now >= 0
    ensures OrderlyRounds(s, now, cb, n)
    decreases n
  {
    var (e, _, r) := PopOne(s, now, SLACK);
    if n > 0 && e.Some? {
      PopOneKeepsSound(s, now);
      SettleKeepsSound(r, e.value, now, cb);
      SettleTidyIff(r, e.value, now, cb);
      SoundIsOrderly(Settle(r, e.value, now, cb), now, cb, n - 1);
    }
  }

  // ----- When the loop ends -----

  /** The loop of `handleExpired` exits within `n` rounds. */
  ghost predicate Finishes(s: Heap, now: int, cb: Callbacks, n: nat)
    decreases n
  {
    var (e, _, r) := PopOne(s, now, SLACK);
    e.None? || (n > 0 && Finishes(Settle(r, e.value, now, cb), now, cb, n - 1))
  }

  /** On any heap: without such a timer the loop ends, after at most one round for each due one. */
  lemma {:induction false} NoSpinFinishes(s: Heap, now: int, cb: Callbacks)
    requires NoSpin(s, now, cb)
    ensures Finishes(s, now, cb, |DueOf(s, now)|)
    decreases |DueOf(s, now)|
  {
    var (e, _, r) := PopOne(s, now, SLACK);
    if e.Some? {
      var t := Settle(r, e.value, now, cb);
      PopIsRound(s, now, cb);
      RoundKeepsNoSpin(s, e.value, t, now, cb);
      RoundShrinks(s, e.value, t, now, cb);
      NoSpinFinishes(t, now, cb);
    }
  }

  lemma SpinnerDue(s: Heap, now: int, cb: Callbacks, x: Entry)
    requires Tidy(s) && x in s && Spins(x, now, cb)
    ensures PopOne(s, now, SLACK).0.Some?
  {
    PopOneIsEarliest(s, now, SLACK);
  }

  lemma SpinnerStays(s: Heap, e: Entry, t: Heap, now: int, cb: Callbacks, x: Entry) returns (y: Entry)
    requires Round(s, e, t, now, cb) && x in s && Spins(x, now, cb)
    ensures y in t && Spins(y, now, cb)
  {
    assert x in multiset(s);
    y := if x == e then Rearmed(x, now) else x;
    assert y in multiset(t);
  }

  lemma SpinnerRound(s: Heap, now: int, cb: Callbacks, x: Entry) returns (y: Entry)
    requires Tidy(s) && now >= 0 && x in s && Spins(x, now, cb) && PopOne(s, now, SLACK).0.Some?
    requires OrderlyRenewal(PopOne(s, now, SLACK).2, PopOne(s, now, SLACK).0.value, now, cb)
    ensures var (e, _, r) := PopOne(s, now, SLACK);
            var t := Settle(r, e.value, now, cb);
            Tidy(t) && y in t && Spins(y, now, cb)
  {
    var (e, _, r) := PopOne(s, now, SLACK);
    PopOneKeepsTidy(s, now);
    SettleTidyIff(r, e.value, now, cb);
    PopIsRound(s, now, cb);
    y := SpinnerStays(s, e.value, Settle(r, e.value, now, cb), now, cb, x);
  }

  /** With one it goes on for as long as no renewal is shielded. */
  lemma {:induction false} SpinNeverFinishes(s: Heap, now: int, cb: Callbacks, x: Entry, n: nat)
    requires Tidy(s) && now >= 0 && x in s && Spins(x, now, cb) && OrderlyRounds(s, now, cb, n)
    ensures !Finishes(s, now, cb, n)
    decreases n
  {
    SpinnerDue(s, now, cb, x);
    if n > 0 {
      var (e, _, r) := PopOne(s, now, SLACK);
      var y := SpinnerRound(s, now, cb, x);
      SpinNeverFinishes(Settle(r, e.value, now, cb), now, cb, y, n - 1);
    }
  }

  /** If no renewal is shielded, `handleExpired` returns exactly when no due timer keeps renewing
      itself with a period of one or two milliseconds. */
  lemma FinishesIff(s: Heap, now: int, cb: Callbacks)
    requires Tidy(s) && now >= 0 && forall n: nat :: OrderlyRounds(s, now, cb, n)
    ensures (exists n: nat :: Finishes(s, now, cb, n)) <==> NoSpin(s, now, cb)
  {
    if NoSpin(s, now, cb) {
      NoSpinFinishes(s, now, cb);
      assert exists n: nat :: Finishes(s, now, cb, n);
    } else {
      var x :| x in s && Spins(x, now, cb);
      forall n: nat ensures !Finishes(s, now, cb, n) {
        assert OrderlyRounds(s, now, cb, n);
        SpinNeverFinishes(s, now, cb, x, n);
      }
    }
  }

  /** So it is on every cancel-free heap. */
  lemma CancelFreeFinishesIff(s: Heap, now: int, cb: Callbacks)
    requires Sound(s) && now >= 0
    ensures (exists n: nat :: Finishes(s, now, cb, n)) <==> NoSpin(s, now, cb)
  {
    forall n: nat ensures OrderlyRounds(s, now, cb, n) {
      SoundIsOrderly(s, now, cb, n);
    }
    FinishesIff(s, now, cb);
  }

  /** A timer with a period of 1 ms that goes on: the loop does. */
  lemma OneMillisecondSpins(now: nat, n: nat)
    ensures !Finishes([Entry(0, now + 1, 1, Some(0))], now, _ => true, n)
  {
    var e := Entry(0, now + 1, 1, Some(0));
    SoundIsOrderly([e], now, _ => true, n);
    SpinNeverFinishes([e], now, _ => true, e, n);
  }

  // ----- What the loop does -----

  /** The renewals among the fired timers. */
  function Renewals(fired: seq<Entry>, now: int, cb: Callbacks): seq<Entry> {
    if fired == [] then []
    else (if Renews(fired[0], cb) then [Rearmed(fired[0], now)] else []) + Renewals(fired[1..], now, cb)
  }

  lemma RoundKeepsBound(s: Heap, e: Entry, t: Heap, now: int, cb: Callbacks, key: int)
    requires Round(s, e, t, now, cb) && !Spins(e, now, cb) && LiveFrom(s, key) && (e.Live() ==> key <= e.expiredAt)
    ensures LiveFrom(t, key)
  {
    forall x | x in t && x.Live() ensures key <= x.expiredAt {
      RoundEntries(s, e, t, now, cb, x);
    }
  }

  /** What a round of the loop does to an ordered heap. */
  lemma RoundInOrder(s: Heap, now: int, cb: Callbacks)
    requires Tidy(s) && now >= 0 && NoSpin(s, now, cb) && OrderlyRounds(s, now, cb, |DueOf(s, now)|)
    ensures var (e, delta, r) := PopOne(s, now, SLACK);
            match e
            case None => LiveFrom(s, now + SLACK + 1)
            case Some(x) =>
              var t := Settle(r, x, now, cb);
              && LiveFrom(s, x.expiredAt)
              && Round(s, x, t, now, cb) && Tidy(t) && NoSpin(t, now, cb) && |DueOf(t, now)| == |DueOf(s, now)| - 1
              && OrderlyRounds(t, now, cb, |DueOf(t, now)|)
  {
    PopOneIsEarliest(s, now, SLACK);
    PopOneKeepsTidy(s, now);
    PopIsRound(s, now, cb);
    var (e, _, r) := PopOne(s, now, SLACK);
    if e.Some? {
      var t := Settle(r, e.value, now, cb);
      SettleTidyIff(r, e.value, now, cb);
      RoundKeepsNoSpin(s, e.value, t, now, cb);
      RoundShrinks(s, e.value, t, now, cb);
    }
  }

  /** Order: the live timers fire in the order of their expiry, all due, and what is left is an
      ordered heap with nothing live due. */
  lemma {:induction false} ExpireInOrder(s: Heap, now: int, cb: Callbacks, key: int)
    requires Tidy(s) && now >= 0 && NoSpin(s, now, cb) && OrderlyRounds(s, now, cb, |DueOf(s, now)|) && LiveFrom(s, key)
    ensures var (fired, left, _) := Expire(s, now, cb);
            && Tidy(left) && LiveFrom(left, now + SLACK + 1)
            && Sorted(fired) && NoEarlierThan(fired, key) && AllDue(fired, now)
    decreases |DueOf(s, now)|
  {
    RoundInOrder(s, now, cb);
    var (e, _, r) := PopOne(s, now, SLACK);
    if e.Some? {
      var t := Settle(r, e.value, now, cb);
      var from := if e.value.Live() then e.value.expiredAt else key;
      RoundKeepsBound(s, e.value, t, now, cb, from);
      ExpireInOrder(t, now, cb, from);
      if e.value.Live() {
        InOrderStep(e.value, Expire(t, now, cb).0, now, key);
      }
    }
  }

  /** Due, and live. */
  ghost predicate AllDue(fired: seq<Entry>, now: int) {
    forall i :: 0 <= i < |fired| ==> Due(fired[i], now) && fired[i].Live()
  }

  lemma InOrderStep(e: Entry, rest: seq<Entry>, now: int, key: int)
    requires Due(e, now) && e.Live() && key <= e.expiredAt && Sorted(rest) && NoEarlierThan(rest, e.expiredAt) && AllDue(rest, now)
    ensures var fired := [e] + rest; Sorted(fired) && NoEarlierThan(fired, key) && AllDue(fired, now)
  {
  }

  /** On any heap the delay returned is the gap to the root that is left, and that is not due. */
  lemma {:induction false} ExpireGap(s: Heap, now: int, cb: Callbacks)
    requires NoSpin(s, now, cb)
    ensures var (_, left, delta) := Expire(s, now, cb);
            if left == [] then delta == 0 else delta == left[0].expiredAt - now > SLACK
    decreases |DueOf(s, now)|
  {
    PopIsRound(s, now, cb);
    var (e, _, r) := PopOne(s, now, SLACK);
    if e.Some? {
      var t := Settle(r, e.value, now, cb);
      RoundKeepsNoSpin(s, e.value, t, now, cb);
      RoundShrinks(s, e.value, t, now, cb);
      ExpireGap(t, now, cb);
    }
  }

  /** Of entry `x`: live ones before, plus renewals, are those after, plus the fired; cancelled ones
      only go. */
  ghost predicate Conserved(s: Heap, fired: seq<Entry>, left: Heap, now: int, cb: Callbacks, x: Entry) {
    if x.Live() then multiset(left)[x] + multiset(fired)[x] == multiset(s)[x] + multiset(Renewals(fired, now, cb))[x]
    else multiset(left)[x] <= multiset(s)[x]
  }

  /** Conservation, on any heap. */
  lemma {:induction false} ExpireConserves(s: Heap, now: int, cb: Callbacks, x: Entry)
    requires NoSpin(s, now, cb)
    ensures var (fired, left, _) := Expire(s, now, cb); Conserved(s, fired, left, now, cb, x)
    decreases |DueOf(s, now)|
  {
    PopIsRound(s, now, cb);
    var (e, _, r) := PopOne(s, now, SLACK);
    if e.Some? {
      var t := Settle(r, e.value, now, cb);
      RoundKeepsNoSpin(s, e.value, t, now, cb);
      RoundShrinks(s, e.value, t, now, cb);
      ExpireConserves(t, now, cb, x);
      ConserveStep(s, e.value, t, Expire(t, now, cb).0, now, cb, x);
    }
  }

  lemma ConserveStep(s: Heap, e: Entry, t: Heap, rest: seq<Entry>, now: int, cb: Callbacks, x: Entry)
    requires Round(s, e, t, now, cb)
    ensures var fired := if e.Live() then [e] + rest else rest;
            if x.Live() then
              multiset(t)[x] + multiset(Renewals(rest, now, cb))[x] + multiset(fired)[x]
              == multiset(s)[x] + multiset(Renewals(fired, now, cb))[x] + multiset(rest)[x]
            else multiset(t)[x] <= multiset(s)[x]
  {
    if e.Live() {
      assert ([e] + rest)[1..] == rest;
      var again := if Renews(e, cb) then [Rearmed(e, now)] else [];
      assert Renewals([e] + rest, now, cb) == again + Renewals(rest, now, cb);
      assert multiset(again) == if Renews(e, cb) then multiset{Rearmed(e, now)} else multiset{};
    }
  }

  lemma {:induction false} RenewalsNotDue(fired: seq<Entry>, now: int, cb: Callbacks, x: Entry)
    requires forall i :: 0 <= i < |fired| ==> Due(fired[i], now) && !Spins(fired[i], now, cb)
    requires x in Renewals(fired, now, cb)
    ensures !Due(x, now) && x.Live()
  {
    if !(Renews(fired[0], cb) && x == Rearmed(fired[0], now)) {
      RenewalsNotDue(fired[1..], now, cb, x);
    }
  }

  lemma {:induction false} FiredDoNotSpin(s: Heap, now: int, cb: Callbacks)
    requires NoSpin(s, now, cb)
    ensures forall e :: e in Expire(s, now, cb).0 ==> !Spins(e, now, cb)
    decreases |DueOf(s, now)|
  {
    PopIsRound(s, now, cb);
    var (e, _, r) := PopOne(s, now, SLACK);
    if e.Some? {
      var t := Settle(r, e.value, now, cb);
      RoundKeepsNoSpin(s, e.value, t, now, cb);
      RoundShrinks(s, e.value, t, now, cb);
      FiredDoNotSpin(t, now, cb);
    }
  }

  /** The live entries of a sequence. */
  function LiveOf(s: seq<Entry>): seq<Entry> {
    if s == [] then []
    else LiveOf(s[..|s| - 1]) + (if s[|s| - 1].Live() then [s[|s| - 1]] else [])
  }

  lemma {:induction false} LiveOfCount(s: seq<Entry>, x: Entry)
    ensures multiset(LiveOf(s))[x] == if x.Live() then multiset(s)[x] else 0
  {
    if s != [] {
      LiveOfCount(s[..|s| - 1], x);
      assert s == s[..|s| - 1] + [s[|s| - 1]];
    }
  }

  lemma FiredCount(s: Heap, fired: seq<Entry>, left: Heap, now: int, cb: Callbacks, x: Entry)
    requires Conserved(s, fired, left, now, cb, x)
    requires AllDue(fired, now) && forall i :: 0 <= i < |fired| ==> !Spins(fired[i], now, cb)
    requires LiveFrom(left, now + SLACK + 1)
    ensures multiset(fired)[x] == multiset(LiveOf(DueOf(s, now)))[x] <= multiset(LiveOf(s))[x]
    ensures multiset(LiveOf(left))[x]
            == multiset(LiveOf(s))[x] - multiset(fired)[x] + multiset(Renewals(fired, now, cb))[x]
  {
    LiveOfCount(s, x);
    LiveOfCount(left, x);
    LiveOfCount(DueOf(s, now), x);
    DueOfCount(s, now, x);
    assert x in fired ==> Due(x, now) && x.Live();
    if x in Renewals(fired, now, cb) {
      RenewalsNotDue(fired, now, cb, x);
    }
    if Due(x, now) && x.Live() {
      NothingDueLeft(left, now, x);
    }
  }

  lemma NothingDueLeft(left: Heap, now: int, x: Entry)
    requires LiveFrom(left, now + SLACK + 1) && Due(x, now) && x.Live()
    ensures multiset(left)[x] == 0
  {
    if x in multiset(left) {
      assert false;
    }
  }

  lemma EqualCounts(left: multiset<Entry>, s: multiset<Entry>, fired: multiset<Entry>, again: multiset<Entry>)
    requires forall x :: fired[x] <= s[x]
    requires forall x :: left[x] == s[x] - fired[x] + again[x]
    ensures left == s - fired + again
  {
  }

  lemma DueAreFired(s: Heap, fired: seq<Entry>, left: Heap, now: int, cb: Callbacks)
    requires forall x :: Conserved(s, fired, left, now, cb, x)
    requires AllDue(fired, now) && forall i :: 0 <= i < |fired| ==> !Spins(fired[i], now, cb)
    requires LiveFrom(left, now + SLACK + 1)
    ensures multiset(fired) == multiset(LiveOf(DueOf(s, now)))
    ensures multiset(LiveOf(left)) == multiset(LiveOf(s)) - multiset(fired) + multiset(Renewals(fired, now, cb))
    ensures forall x: Entry :: !x.Live() ==> multiset(left)[x] <= multiset(s)[x]
  {
    forall x
      ensures multiset(fired)[x] == multiset(LiveOf(DueOf(s, now)))[x] <= multiset(LiveOf(s))[x]
      ensures multiset(LiveOf(left))[x]
              == multiset(LiveOf(s))[x] - multiset(fired)[x] + multiset(Renewals(fired, now, cb))[x]
    {
      FiredCount(s, fired, left, now, cb, x);
    }
    EqualCounts(multiset(LiveOf(left)), multiset(LiveOf(s)), multiset(fired), multiset(Renewals(fired, now, cb)));
    forall x: Entry | !x.Live() ensures multiset(left)[x] <= multiset(s)[x] {
      assert Conserved(s, fired, left, now, cb, x);
    }
  }

  /** If no renewal is shielded, `handleExpired` fires exactly the due live timers, each once, in the
      order of their expiry; it leaves exactly the other live ones and the renewals, in order, and
      no cancelled entry that was not there. */
  lemma ExpireFiresExactlyTheDue(s: Heap, now: int, cb: Callbacks)
    requires Tidy(s) && now >= 0 && NoSpin(s, now, cb) && OrderlyRounds(s, now, cb, |DueOf(s, now)|)
    ensures var (fired, left, delta) := Expire(s, now, cb);
            && Sorted(fired) && Tidy(left)
            && multiset(fired) == multiset(LiveOf(DueOf(s, now)))
            && multiset(LiveOf(left)) == multiset(LiveOf(s)) - multiset(fired) + multiset(Renewals(fired, now, cb))
            && (forall x: Entry :: !x.Live() ==> multiset(left)[x] <= multiset(s)[x])
            && (forall x :: x in fired ==> x.expiredAt <= now + 2)
            && (forall x :: x in left && x.Live() ==> x.expiredAt > now + 2)
            && (if left == [] then delta == 0 else delta == left[0].expiredAt - now > SLACK)
  {
    var (fired, left, _) := Expire(s, now, cb);
    LiveFromOne(s);
    ExpireInOrder(s, now, cb, 1);
    ExpireGap(s, now, cb);
    FiredDoNotSpin(s, now, cb);
    forall x ensures Conserved(s, fired, left, now, cb, x) {
      ExpireConserves(s, now, cb, x);
    }
    DueAreFired(s, fired, left, now, cb);
  }

  lemma {:induction false} AllLiveOf(s: seq<Entry>)
    requires AllLive(s)
    ensures LiveOf(s) == s
  {
    if s != [] {
      AllLiveOf(s[..|s| - 1]);
    }
  }

  lemma {:induction false} DueOfLive(s: Heap, now: int)
    requires AllLive(s)
    ensures AllLive(DueOf(s, now))
  {
    if s != [] {
      DueOfLive(s[..|s| - 1], now);
    }
  }

  /** On a cancel-free heap that is all of them. */
  lemma CancelFreeExpire(s: Heap, now: int, cb: Callbacks)
    requires Sound(s) && now >= 0 && NoSpin(s, now, cb)
    ensures var (fired, left, delta) := Expire(s, now, cb);
            && Sorted(fired) && Sound(left)
            && multiset(fired) == multiset(DueOf(s, now))
            && multiset(left) == multiset(s) - multiset(fired) + multiset(Renewals(fired, now, cb))
            && LiveFrom(left, now + SLACK + 1)
            && (if left == [] then delta == 0 else delta == left[0].expiredAt - now > SLACK)
  {
    SoundIsOrderly(s, now, cb, |DueOf(s, now)|);
    ExpireFiresExactlyTheDue(s, now, cb);
    LiveFromOne(s);
    ExpireInOrder(s, now, cb, 1);
    var left := Expire(s, now, cb).1;
    forall x: Entry | x in multiset(left) ensures x.Live() {
      AllLiveIn(s);
      assert x.Live() || x !in multiset(s);
    }
    AllLiveIn(left);
    AllLiveOf(s);
    AllLiveOf(left);
    DueOfLive(s, now);
    AllLiveOf(DueOf(s, now));
  }

  lemma LiveFromOne(s: Heap)
    requires WellKeyed(s)
    ensures LiveFrom(s, 1)
  {
  }

  // ----- What the answer of a callback decides -----

  /** No two entries have the same id. */
  ghost predicate UniqueIds(m: multiset<Entry>) {
    && (forall x :: x in m ==> m[x] == 1)
    && (forall x, y :: x in m && y in m && x.id == y.id ==> x == y)
  }

  /** The fired timer `e` goes on exactly if its callback answered true and it has a period: then one
      entry has its id, due a period from now; otherwise none has. */
  ghost predicate Answered(e: Entry, left: multiset<Entry>, now: int, cb: Callbacks)
    requires e.Live()
  {
    if cb(e.eh.value) && e.interval > 0 then
      && left[Entry(e.id, now + e.interval, e.interval, e.eh)] == 1
      && forall x :: x in left && x.id == e.id ==> x == Entry(e.id, now + e.interval, e.interval, e.eh)
    else forall x :: x in left ==> x.id != e.id
  }

  /** The entries of `m` with the id of `x` are `x` alone. */
  ghost predicate Alone(m: multiset<Entry>, x: Entry) {
    m[x] == 1 && forall y :: y in m && y.id == x.id ==> y == x
  }

  lemma RoundKeepsUnique(s: Heap, e: Entry, t: Heap, now: int, cb: Callbacks)
    requires Round(s, e, t, now, cb) && UniqueIds(multiset(s))
    ensures UniqueIds(multiset(t))
  {
    var m, m' := multiset(s), multiset(t);
    assert e in m;
    forall x | x in m' ensures m'[x] == 1 && (x == Rearmed(e, now) || (x in m && x.id != e.id)) {
      if x in m && x != e {
        assert x.id != e.id;
      }
    }
  }

  /** A timer that is not due stays, alone with its id. */
  lemma {:induction false} NotDueStays(s: Heap, now: int, cb: Callbacks, x: Entry)
    requires NoSpin(s, now, cb) && Alone(multiset(s), x) && !Due(x, now)
    ensures Alone(multiset(Expire(s, now, cb).1), x)
    decreases |DueOf(s, now)|
  {
    PopIsRound(s, now, cb);
    var (e, _, r) := PopOne(s, now, SLACK);
    if e.Some? {
      var t := Settle(r, e.value, now, cb);
      RoundKeepsNoSpin(s, e.value, t, now, cb);
      RoundShrinks(s, e.value, t, now, cb);
      RoundKeepsAlone(s, e.value, t, now, cb, x);
      NotDueStays(t, now, cb, x);
    }
  }

  lemma RoundKeepsAlone(s: Heap, e: Entry, t: Heap, now: int, cb: Callbacks, x: Entry)
    requires Round(s, e, t, now, cb) && Alone(multiset(s), x) && x != e
    ensures Alone(multiset(t), x)
  {
    assert e in multiset(s) && e.id != x.id;
  }

  /** An id that is not there does not appear. */
  lemma {:induction false} AbsentStays(s: Heap, now: int, cb: Callbacks, id: nat)
    requires NoSpin(s, now, cb) && forall x :: x in multiset(s) ==> x.id != id
    ensures forall x :: x in multiset(Expire(s, now, cb).1) ==> x.id != id
    decreases |DueOf(s, now)|
  {
    PopIsRound(s, now, cb);
    var (e, _, r) := PopOne(s, now, SLACK);
    if e.Some? {
      var t := Settle(r, e.value, now, cb);
      RoundKeepsNoSpin(s, e.value, t, now, cb);
      RoundShrinks(s, e.value, t, now, cb);
      assert e.value in multiset(s);
      AbsentStays(t, now, cb, id);
    }
  }

  lemma RenewedAlone(s: multiset<Entry>, e: Entry, t: multiset<Entry>, f: Entry)
    requires UniqueIds(s) && e in s && t == s - multiset{e} + multiset{f} && f.id == e.id
    ensures Alone(t, f)
  {
    forall y | y in t && y.id == f.id ensures y == f {
      assert y in s ==> y == e;
    }
    assert s[f] == if f == e then 1 else 0;
  }

  lemma TakenAbsent(s: multiset<Entry>, e: Entry, t: multiset<Entry>)
    requires UniqueIds(s) && e in s && t == s - multiset{e}
    ensures forall y :: y in t ==> y.id != e.id
  {
    forall y | y in t ensures y.id != e.id {
      assert y in s && y != e;
    }
  }

  /** What is left of the id of the entry fired first. */
  lemma FirstAnswered(s: Heap, e: Entry, t: Heap, now: int, cb: Callbacks)
    requires NoSpin(s, now, cb) && NoSpin(t, now, cb) && UniqueIds(multiset(s)) && Round(s, e, t, now, cb) && e.Live()
    ensures Answered(e, multiset(Expire(t, now, cb).1), now, cb)
  {
    var f := Entry(e.id, now + e.interval, e.interval, e.eh);
    assert e in multiset(s);
    if cb(e.eh.value) && e.interval > 0 {
      RenewedAlone(multiset(s), e, multiset(t), f);
      NotDueStays(t, now, cb, f);
    } else {
      TakenAbsent(multiset(s), e, multiset(t));
      AbsentStays(t, now, cb, e.id);
    }
  }

  /** On any heap: the answer of its callback and its period decide what becomes of a fired timer. */
  lemma {:induction false} AnswerDecides(s: Heap, now: int, cb: Callbacks, e: Entry)
    requires NoSpin(s, now, cb) && UniqueIds(multiset(s)) && e in Expire(s, now, cb).0
    ensures e.Live() && e in s && e.expiredAt <= now + 2
    ensures Answered(e, multiset(Expire(s, now, cb).1), now, cb)
    decreases |DueOf(s, now)|
  {
    PopIsRound(s, now, cb);
    var (f, _, r) := PopOne(s, now, SLACK);
    if f.Some? {
      var t := Settle(r, f.value, now, cb);
      RoundKeepsNoSpin(s, f.value, t, now, cb);
      RoundShrinks(s, f.value, t, now, cb);
      if e == f.value && e.Live() {
        FirstAnswered(s, e, t, now, cb);
      } else {
        RoundKeepsUnique(s, f.value, t, now, cb);
        AnswerDecides(t, now, cb, e);
        RoundEntries(s, f.value, t, now, cb, e);
        assert !(e == Rearmed(f.value, now)) by {
          assert !Spins(f.value, now, cb);
        }
      }
    }
  }

  // ----- A shielded renewal -----

  function Later(id: nat): Entry { Entry(id, 300, 0, Some(id)) }

  /** A timer due at 10 with period `p`, one at 100 with a cancelled entry below it, the rest at 300. */
  function ShieldingHeap(p: int): Heap {
    [Entry(0, 10, p, Some(0)), Entry(1, 100, 0, Some(1)), Later(2), Later(3), Later(4),
     Entry(5, 1, 0, None), Later(6), Later(7), Later(8)]
  }

  /** What the first round of the loop makes of it, at time 10: the renewal ends up below the cancelled
      entry, under the root at 100. */
  function ShieldedHeap(p: int): Heap {
    [Entry(1, 100, 0, Some(1)), Entry(5, 1, 0, None), Later(2), Later(3), Later(4),
     Later(8), Later(6), Later(7), Entry(0, 10 + p, p, Some(0))]
  }

  lemma ShieldingTidy(p: int)
    ensures Tidy(ShieldingHeap(p))
  {
    var s := ShieldingHeap(p);
    forall i, j | 0 <= i < 9 && 0 <= j < 9 && Above(i, j) && s[i].Live() && s[j].Live()
      ensures s[i].expiredAt <= s[j].expiredAt
    {
      assert i < j;
    }
  }

  lemma ShieldingPop(p: int)
    ensures PopOne(ShieldingHeap(p), 10, SLACK) == (Some(Entry(0, 10, p, Some(0))), 0, ShieldedHeap(p)[..8])
  {
    var s := ShieldingHeap(p);
    var m0 := s[0 := s[8]][..8];
    var m1 := Swap(m0, 0, 1);
    assert m0 == [Later(8), Entry(1, 100, 0, Some(1)), Later(2), Later(3), Later(4), Entry(5, 1, 0, None), Later(6), Later(7)];
    assert SmallestFrom(m0, 0, 1, 5) == 1;
    assert m1 == [Entry(1, 100, 0, Some(1)), Later(8), Later(2), Later(3), Later(4), Entry(5, 1, 0, None), Later(6), Later(7)];
    assert SmallestFrom(m1, 1, 5, 8) == 5;
    assert Swap(m1, 1, 5) == ShieldedHeap(p)[..8];
    assert ShiftDown(m1, 1) == ShieldedHeap(p)[..8];
  }

  lemma ShieldingSettles(p: int, cb: Callbacks)
    requires p >= 1 && cb(0)
    ensures Settle(ShieldedHeap(p)[..8], Entry(0, 10, p, Some(0)), 10, cb) == ShieldedHeap(p)
  {
    assert ShieldedHeap(p)[..8] + [Entry(0, 10 + p, p, Some(0))] == ShieldedHeap(p);
    assert Parent(8) == 1;
  }

  /** With a period of 1 the loop ends after this round, although a due timer keeps renewing itself. */
  lemma ShieldedSpinnerReturns(cb: Callbacks)
    requires cb(0)
    ensures var s := ShieldingHeap(1);
            Tidy(s) && Spins(s[0], 10, cb) && Finishes(s, 10, cb, 1) && !OrderlyRounds(s, 10, cb, 1)
  {
    ShieldingTidy(1);
    ShieldingPop(1);
    ShieldingSettles(1, cb);
    assert PopOne(ShieldedHeap(1), 10, SLACK).0 == None;
    PopOneKeepsTidy(ShieldingHeap(1), 10);
    SettleTidyIff(ShieldedHeap(1)[..8], Entry(0, 10, 1, Some(0)), 10, cb);
    ShieldedUntidy(1);
  }

  lemma ShieldedUntidy(p: int)
    requires 1 <= p < 90
    ensures !Tidy(ShieldedHeap(p))
  {
    var s := ShieldedHeap(p);
    RootAboveAll(8);
    assert s[0].Live() && s[8].Live() && s[0].expiredAt > s[8].expiredAt;
  }
}
