/** Who owns which timer (timer_4heap.go:70-141), over every run of `schedule`, `cancel`
    and `handleExpired`, with callbacks that may themselves schedule and cancel.

    `ti` is the timer item each handler points to; `handleExpired` is taken apart into
    popping an entry, running the callback, and settling its answer. */
module TimerItems {
  import opened Basics
  import opened TimerHeap
  import opened TimerExpiry

  /** Where the poller is: outside callbacks, inside the callback of `e`, or stopped by a
      nil dereference. */
  datatype Phase = Idle | InCallback(e: Entry, now: int) | Crashed

  datatype State = State(heap: Heap, ti: map<nat, nat>, nextId: nat, phase: Phase,
                         cancelled: set<nat>, fired: seq<nat>)

  datatype Action =
    | Schedule(h: nat, now: int, delay: int, interval: int)
    | Cancel(h: nat)
    | Pop(now: int)
    | Return(answer: bool)

  ghost predicate Enabled(st: State, a: Action) {
    match a
    case Schedule(_, _, _, _) => !st.phase.Crashed?
    case Cancel(_) => !st.phase.Crashed?
    case Pop(_) => st.phase.Idle?
    case Return(_) => st.phase.InCallback?
  }

  /** timer_4heap.go:70-86 */
  ghost function DoSchedule(st: State, h: nat, now: int, delay: int, interval: int): State {
    if delay < 0 || interval < 0 || h in st.ti then st
    else st.(heap := Insert(st.heap, Entry(st.nextId, now + delay, interval, Some(h))),
             ti := st.ti[h := st.nextId],
             nextId := st.nextId + 1)
  }

  /** timer_4heap.go:107-116; the item may be in the heap or held by `handleExpired`. */
  ghost function DoCancel(st: State, h: nat): State {
    if h !in st.ti then st
    else
      var id := st.ti[h];
      st.(heap := TimerHeap.Cancel(st.heap, id),
          ti := st.ti - {h},
          phase := if st.phase.InCallback? && st.phase.e.id == id
                   then InCallback(st.phase.e.Cancelled(), st.phase.now) else st.phase,
          cancelled := st.cancelled + {id})
  }

  /** timer_4heap.go:125-132 up to the callback */
  ghost function DoPop(st: State, now: int): State {
    var (e, _, r) := PopOne(st.heap, now, SLACK);
    if e.None? then st
    else if !e.value.Live() then st.(heap := r)
    else st.(heap := r, phase := InCallback(e.value, now), fired := st.fired + [e.value.id])
  }

  /** timer_4heap.go:132-138 from the callback's answer on */
  ghost function DoReturn(st: State, answer: bool): State
    requires st.phase.InCallback?
  {
    var e := st.phase.e;
    if answer && e.interval > 0 then
      st.(heap := Insert(st.heap, Rearmed(e, st.phase.now)), phase := Idle)
    else if !e.Live() then st.(phase := Crashed)
    else st.(ti := st.ti - {e.eh.value}, phase := Idle)
  }

  ghost function Step(st: State, a: Action): State
    requires Enabled(st, a)
  {
    match a
    case Schedule(h, now, delay, interval) => DoSchedule(st, h, now, delay, interval)
    case Cancel(h) => DoCancel(st, h)
    case Pop(now) => DoPop(st, now)
    case Return(answer) => DoReturn(st, answer)
  }

  const INIT := State([], map[], 0, Idle, {}, [])

  // ----- The invariant, on the multiset of entries the poller holds -----

  /** The entries in existence: those of the heap, and the one whose callback is running. */
  ghost function Held(st: State): multiset<Entry> {
    multiset(st.heap) + (if st.phase.InCallback? then multiset{st.phase.e} else multiset{})
  }

  /** Entry `e` is the item some handler points to. */
  predicate Owned(e: Entry, ti: map<nat, nat>) {
    e.Live() && e.eh.value in ti && ti[e.eh.value] == e.id
  }

  /** Some entry fires handler `h`. */
  ghost predicate Names(m: multiset<Entry>, h: nat) {
    exists e :: e in m && e.eh == Some(h)
  }

  ghost predicate Registered(m: multiset<Entry>, ti: map<nat, nat>, nextId: nat, cancelled: set<nat>) {
    && (forall e :: e in m ==> m[e] == 1 && e.id < nextId)
    && (forall e, f :: e in m && f in m && e.id == f.id ==> e == f)
    && (forall e :: e in m && e.Live() ==> Owned(e, ti) && e.id !in cancelled)
    && (forall h :: h in ti ==> Names(m, h))
    && (forall id :: id in cancelled ==> id < nextId)
  }

  ghost predicate Inv(st: State) {
    Registered(Held(st), st.ti, st.nextId, st.cancelled)
  }

  lemma AddEntry(m: multiset<Entry>, ti: map<nat, nat>, nextId: nat, cancelled: set<nat>, h: nat, e: Entry)
    requires Registered(m, ti, nextId, cancelled) && h !in ti && e.id == nextId && e.eh == Some(h)
    ensures Registered(m + multiset{e}, ti[h := nextId], nextId + 1, cancelled)
  {
    var m', ti' := m + multiset{e}, ti[h := nextId];
    assert e !in m;
    forall k | k in ti' ensures Names(m', k) {
      if k == h {
        assert e in m';
      } else {
        assert Names(m, k);
        var x :| x in m && x.eh == Some(k);
        assert x in m';
      }
    }
  }

  /** Taking away an owned entry together with its handler's pointer. */
  lemma DropEntry(m: multiset<Entry>, ti: map<nat, nat>, nextId: nat, cancelled: set<nat>, e: Entry)
    requires Registered(m, ti, nextId, cancelled) && e in m && e.Live()
    ensures Registered(m - multiset{e}, ti - {e.eh.value}, nextId, cancelled)
  {
    var m', ti' := m - multiset{e}, ti - {e.eh.value};
    forall x | x in m' ensures x in m && x != e && m'[x] == 1 {
    }
    forall x | x in m' && x.Live() ensures Owned(x, ti') {
      assert x.id != e.id;
    }
    forall k | k in ti' ensures Names(m', k) {
      assert Names(m, k);
      var x :| x in m && x.eh == Some(k);
      assert x in m';
    }
  }

  /** Putting an entry that no handler owns in the place of another with the same id. */
  lemma AddDead(m: multiset<Entry>, ti: map<nat, nat>, nextId: nat, cancelled: set<nat>, d: Entry)
    requires Registered(m, ti, nextId, cancelled) && !d.Live() && d.id < nextId
    requires forall x :: x in m ==> x.id != d.id
    ensures Registered(m + multiset{d}, ti, nextId, cancelled)
  {
    var m' := m + multiset{d};
    assert d !in m;
    forall k | k in ti ensures Names(m', k) {
      assert Names(m, k);
      var x :| x in m && x.eh == Some(k);
      assert x in m';
    }
  }

  lemma DropDead(m: multiset<Entry>, ti: map<nat, nat>, nextId: nat, cancelled: set<nat>, d: Entry)
    requires Registered(m, ti, nextId, cancelled) && d in m && !d.Live()
    ensures Registered(m - multiset{d}, ti, nextId, cancelled)
  {
    var m' := m - multiset{d};
    forall x | x in m' ensures x in m && m'[x] == 1 {
    }
    forall k | k in ti ensures Names(m', k) {
      assert Names(m, k);
      var x :| x in m && x.eh == Some(k);
      assert x in m';
    }
  }

  /** Moving the key of an entry. */
  lemma Rekey(m: multiset<Entry>, ti: map<nat, nat>, nextId: nat, cancelled: set<nat>, e: Entry, f: Entry)
    requires Registered(m, ti, nextId, cancelled) && e in m && f.id == e.id && f.eh == e.eh
    ensures Registered(m - multiset{e} + multiset{f}, ti, nextId, cancelled)
  {
    var m' := m - multiset{e} + multiset{f};
    forall x | x in m' ensures (x == f || (x in m && x != e)) && m'[x] == 1 {
      if x in m && x != e {
        assert x.id != e.id;
      }
    }
    forall k | k in ti ensures Names(m', k) {
      assert Names(m, k);
      var x :| x in m && x.eh == Some(k);
      assert x == e ==> f in m' && f.eh == Some(k);
      assert x != e ==> x in m';
    }
  }

  /** Cancelling: the owned entry `e` of handler `h` turns into a dead one. */
  lemma KillEntry(m: multiset<Entry>, ti: map<nat, nat>, nextId: nat, cancelled: set<nat>, e: Entry)
    requires Registered(m, ti, nextId, cancelled) && e in m && e.Live()
    ensures Registered(m - multiset{e} + multiset{e.Cancelled()}, ti - {e.eh.value}, nextId, cancelled + {e.id})
  {
    DropEntry(m, ti, nextId, cancelled, e);
    var rest := m - multiset{e};
    forall x | x in rest ensures x.id != e.id {
      assert x in m && x != e;
    }
    AddDead(rest, ti - {e.eh.value}, nextId, cancelled, e.Cancelled());
    forall x | x in rest + multiset{e.Cancelled()} && x.Live() ensures x.id !in cancelled + {e.id} {
      assert x in rest;
    }
  }

  lemma CancelEntries(s: Heap, e: Entry)
    requires forall x, y :: x in s && y in s && x.id == y.id ==> x == y
    requires multiset(s)[e] == 1
    ensures multiset(TimerHeap.Cancel(s, e.id)) == multiset(s) - multiset{e} + multiset{e.Cancelled()}
  {
    assert e in s;
    var i :| 0 <= i < |s| && s[i] == e;
    var t := s[i := e.Cancelled()];
    forall j | 0 <= j < |s| && s[j].id == e.id ensures j == i {
      if j != i {
        assert s[j] in s && s[j] == e;
        TwoPlaces(s, i, j);
      }
    }
    assert TimerHeap.Cancel(s, e.id) == t;
  }

  lemma TwoPlaces(s: Heap, i: nat, j: nat)
    requires i < |s| && j < |s| && i != j && s[i] == s[j]
    ensures multiset(s)[s[i]] >= 2
  {
    var lo, hi := if i < j then i else j, if i < j then j else i;
    assert s == s[..hi] + [s[hi]] + s[hi + 1..];
    assert s[lo] in s[..hi];
  }

  lemma CancelAbsent(s: Heap, id: nat)
    requires forall x :: x in s ==> x.id != id
    ensures TimerHeap.Cancel(s, id) == s
  {
    forall i | 0 <= i < |s| ensures TimerHeap.Cancel(s, id)[i] == s[i] {
      assert s[i] in s;
    }
  }

  // ----- Every step keeps the invariant -----

  lemma ScheduleKeeps(st: State, h: nat, now: int, delay: int, interval: int)
    requires Inv(st) && !st.phase.Crashed?
    ensures Inv(DoSchedule(st, h, now, delay, interval))
  {
    if !(delay < 0 || interval < 0 || h in st.ti) {
      var e := Entry(st.nextId, now + delay, interval, Some(h));
      InsertAdds(st.heap, e);
      AddEntry(Held(st), st.ti, st.nextId, st.cancelled, h, e);
      assert Held(DoSchedule(st, h, now, delay, interval)) == Held(st) + multiset{e};
    }
  }

  lemma CancelKeeps(st: State, h: nat)
    requires Inv(st) && !st.phase.Crashed?
    ensures Inv(DoCancel(st, h))
  {
    if h in st.ti {
      var m := Held(st);
      assert Names(m, h);
      var e :| e in m && e.eh == Some(h);
      assert Owned(e, st.ti);
      assert UniqueIds(m);
      KillEntry(m, st.ti, st.nextId, st.cancelled, e);
      CancelHeld(st, h, e);
    }
  }

  /** The entry to cancel is the one the running callback belongs to. */
  lemma CancelOutsideHeap(s: Heap, e: Entry)
    requires UniqueIds(multiset(s) + multiset{e})
    ensures TimerHeap.Cancel(s, e.id) == s
    ensures multiset(s) + multiset{e.Cancelled()} == multiset(s) + multiset{e} - multiset{e} + multiset{e.Cancelled()}
  {
    var m := multiset(s) + multiset{e};
    forall x | x in s ensures x.id != e.id {
      assert x in m && e in m && m[e] == multiset(s)[e] + 1;
    }
    CancelAbsent(s, e.id);
  }

  lemma UniquePart(s: Heap, c: multiset<Entry>, e: Entry)
    requires UniqueIds(multiset(s) + c) && e in s
    ensures multiset(s)[e] == 1
    ensures forall x, y :: x in s && y in s && x.id == y.id ==> x == y
    ensures forall x :: x in c ==> x.id != e.id
  {
    var m := multiset(s) + c;
    assert e in m && m[e] == multiset(s)[e] + c[e];
    forall x, y | x in s && y in s && x.id == y.id ensures x == y {
      assert x in m && y in m;
    }
    forall x | x in c ensures x.id != e.id {
      assert x in m;
    }
  }

  /** The entry to cancel is in the heap; `c` is what else is held. */
  lemma CancelInsideHeap(s: Heap, c: multiset<Entry>, e: Entry)
    requires UniqueIds(multiset(s) + c) && e in s
    ensures multiset(TimerHeap.Cancel(s, e.id)) + c == multiset(s) + c - multiset{e} + multiset{e.Cancelled()}
    ensures forall x :: x in c ==> x.id != e.id
  {
    UniquePart(s, c, e);
    CancelEntries(s, e);
    Exchange(multiset(s), c, e, e.Cancelled());
  }

  lemma Exchange(m: multiset<Entry>, c: multiset<Entry>, e: Entry, d: Entry)
    requires e in m
    ensures (m - multiset{e} + multiset{d}) + c == m + c - multiset{e} + multiset{d}
  {
  }

  lemma CancelHeld(st: State, h: nat, e: Entry)
    requires UniqueIds(Held(st)) && e in Held(st) && h in st.ti && st.ti[h] == e.id
    ensures Held(DoCancel(st, h)) == Held(st) - multiset{e} + multiset{e.Cancelled()}
  {
    if st.phase.InCallback? && st.phase.e == e {
      CancelOutsideHeap(st.heap, e);
    } else {
      CancelInsideHeap(st.heap, if st.phase.InCallback? then multiset{st.phase.e} else multiset{}, e);
    }
  }

  lemma PopKeeps(st: State, now: int)
    requires Inv(st) && st.phase.Idle?
    ensures Inv(DoPop(st, now))
  {
    var (e, _, r) := PopOne(st.heap, now, SLACK);
    PopOneTakes(st.heap, now, SLACK);
    if e.Some? {
      assert Held(st) == multiset(st.heap) == multiset(r) + multiset{e.value};
      if !e.value.Live() {
        DropDead(Held(st), st.ti, st.nextId, st.cancelled, e.value);
        assert Held(DoPop(st, now)) == Held(st) - multiset{e.value};
      } else {
        assert Held(DoPop(st, now)) == Held(st);
      }
    }
  }

  lemma ReturnKeeps(st: State, answer: bool)
    requires Inv(st) && st.phase.InCallback? && !DoReturn(st, answer).phase.Crashed?
    ensures Inv(DoReturn(st, answer))
  {
    var e := st.phase.e;
    assert e in Held(st);
    if answer && e.interval > 0 {
      InsertAdds(st.heap, Rearmed(e, st.phase.now));
      Rekey(Held(st), st.ti, st.nextId, st.cancelled, e, Rearmed(e, st.phase.now));
      assert Held(DoReturn(st, answer)) == Held(st) - multiset{e} + multiset{Rearmed(e, st.phase.now)};
    } else {
      DropEntry(Held(st), st.ti, st.nextId, st.cancelled, e);
      assert Held(DoReturn(st, answer)) == Held(st) - multiset{e};
    }
  }

  // ----- Runs -----

  ghost predicate IsRun(trace: seq<State>, acts: seq<Action>) {
    && |trace| == |acts| + 1
    && trace[0] == INIT
    && (forall i :: 0 <= i < |acts| ==> StepAt(trace, acts, i))
  }

  /** Action `i` leads from the `i`-th state to the next. */
  ghost predicate StepAt(trace: seq<State>, acts: seq<Action>, i: nat)
    requires i < |acts| < |trace|
  {
    Enabled(trace[i], acts[i]) && trace[i + 1] == Step(trace[i], acts[i])
  }

  lemma {:induction false} RunKeepsInv(trace: seq<State>, acts: seq<Action>, n: nat)
    requires IsRun(trace, acts) && n <= |acts|
    ensures !trace[n].phase.Crashed? ==> Inv(trace[n])
  {
    if n > 0 {
      RunKeepsInv(trace, acts, n - 1);
      var st, a := trace[n - 1], acts[n - 1];
      assert StepAt(trace, acts, n - 1);
      match a
      case Schedule(h, now, delay, interval) => ScheduleKeeps(st, h, now, delay, interval);
      case Cancel(h) => CancelKeeps(st, h);
      case Pop(now) => PopKeeps(st, now);
      case Return(answer) => if !trace[n].phase.Crashed? { ReturnKeeps(st, answer); }
    }
  }

  /** The heap entries that name handler `h`. */
  ghost function Naming(s: Heap, h: nat): (r: set<nat>) {
    set i | 0 <= i < |s| && s[i].eh == Some(h)
  }

  /** Outside callbacks, a handler holds a timer item exactly when one heap entry names it,
      and never do two. */
  lemma OneEntryPerHandler(trace: seq<State>, acts: seq<Action>, n: nat, h: nat)
    requires IsRun(trace, acts) && n <= |acts| && trace[n].phase.Idle?
    ensures |Naming(trace[n].heap, h)| == if h in trace[n].ti then 1 else 0
    ensures forall i :: i in Naming(trace[n].heap, h) ==> trace[n].ti[h] == trace[n].heap[i].id
  {
    RunKeepsInv(trace, acts, n);
    var st := trace[n];
    var m := Held(st);
    assert m == multiset(st.heap);
    forall i | 0 <= i < |st.heap| && st.heap[i].eh == Some(h) ensures h in st.ti && st.ti[h] == st.heap[i].id {
      assert st.heap[i] in m && Owned(st.heap[i], st.ti);
    }
    if h in st.ti {
      assert Names(m, h);
      var e :| e in m && e.eh == Some(h);
      assert e in st.heap;
      var i :| 0 <= i < |st.heap| && st.heap[i] == e;
      forall j | j in Naming(st.heap, h) ensures j == i {
        if j != i {
          assert st.heap[j] in m && st.heap[j].id == e.id;
          TwoPlaces(st.heap, i, j);
        }
      }
      assert Naming(st.heap, h) == {i};
    } else {
      assert Naming(st.heap, h) == {};
    }
  }

  lemma {:induction false} CancelledGrows(trace: seq<State>, acts: seq<Action>, m: nat, n: nat)
    requires IsRun(trace, acts) && m <= n <= |acts|
    ensures trace[m].cancelled <= trace[n].cancelled
  {
    if m < n {
      CancelledGrows(trace, acts, m, n - 1);
      assert StepAt(trace, acts, n - 1);
    }
  }

  /** A cancelled item never fires: whenever a callback starts, its item has not been
      cancelled at any earlier point of the run. */
  lemma CancelledNeverFires(trace: seq<State>, acts: seq<Action>, m: nat, n: nat)
    requires IsRun(trace, acts) && m <= n < |acts|
    requires trace[n].phase.Idle? && trace[n + 1].phase.InCallback?
    ensures trace[n + 1].phase.e.id !in trace[m].cancelled
    ensures Owned(trace[n + 1].phase.e, trace[n].ti)
  {
    RunKeepsInv(trace, acts, n);
    CancelledGrows(trace, acts, m, n);
    assert StepAt(trace, acts, n);
    var e := PopOne(trace[n].heap, acts[n].now, SLACK).0;
    PopOneTakes(trace[n].heap, acts[n].now, SLACK);
    assert e.value in Held(trace[n]);
  }

  // ----- Where entries come from -----

  /** Action `i` is the schedule that made item `id`. */
  ghost predicate MadeBy(trace: seq<State>, acts: seq<Action>, i: nat, id: nat)
    requires i < |acts| < |trace|
  {
    acts[i].Schedule? && trace[i].nextId == id && trace[i + 1].nextId == id + 1
  }

  /** Entry `e` has the period, and unless cancelled the handler, of the schedule that made it. */
  ghost predicate AsScheduled(trace: seq<State>, acts: seq<Action>, n: nat, e: Entry)
    requires n <= |acts| < |trace|
  {
    exists i :: 0 <= i < n && MadeBy(trace, acts, i, e.id) && e.interval == acts[i].interval
                && (e.Live() ==> e.eh == Some(acts[i].h))
  }

  lemma AsScheduledOn(trace: seq<State>, acts: seq<Action>, n: nat, e: Entry, f: Entry)
    requires n < |acts| < |trace| && AsScheduled(trace, acts, n, e)
    requires f.id == e.id && f.interval == e.interval && (f.Live() ==> f.eh == e.eh)
    ensures AsScheduled(trace, acts, n + 1, f)
  {
    var i :| 0 <= i < n && MadeBy(trace, acts, i, e.id) && e.interval == acts[i].interval
             && (e.Live() ==> e.eh == Some(acts[i].h));
    assert 0 <= i < n + 1 && MadeBy(trace, acts, i, f.id);
  }

  /** What an action makes of the entries held: each stems from one that was, or is the new one. */
  lemma HeldAfter(st: State, a: Action, x: Entry)
    requires Enabled(st, a) && x in Held(Step(st, a))
    ensures (exists e :: e in Held(st) && x.id == e.id && x.interval == e.interval && (x.Live() ==> x.eh == e.eh))
            || (a.Schedule? && Step(st, a).nextId == st.nextId + 1
                && x == Entry(st.nextId, a.now + a.delay, a.interval, Some(a.h)))
  {
    match a
    case Schedule(h, now, delay, interval) =>
      if !(delay < 0 || interval < 0 || h in st.ti) {
        InsertAdds(st.heap, Entry(st.nextId, now + delay, interval, Some(h)));
      }
      assert x in Held(st) || x == Entry(st.nextId, now + delay, interval, Some(h));
    case Cancel(h) => CancelledEntries(st, h, x);
    case Pop(now) =>
      PopOneTakes(st.heap, now, SLACK);
      assert x in Held(st);
    case Return(answer) =>
      var e := st.phase.e;
      assert e in Held(st);
      if answer && e.interval > 0 {
        InsertAdds(st.heap, Rearmed(e, st.phase.now));
        assert x == Rearmed(e, st.phase.now) || x in Held(st);
      } else {
        assert x in Held(st);
      }
  }

  lemma CancelledEntries(st: State, h: nat, x: Entry)
    requires x in Held(DoCancel(st, h))
    ensures exists e :: e in Held(st) && x.id == e.id && x.interval == e.interval && (x.Live() ==> x.eh == e.eh)
  {
    if h !in st.ti {
      assert x in Held(st);
    } else if x in DoCancel(st, h).heap {
      var j :| 0 <= j < |st.heap| && TimerHeap.Cancel(st.heap, st.ti[h])[j] == x;
      assert st.heap[j] in Held(st);
    } else {
      assert st.phase.InCallback? && st.phase.e in Held(st);
    }
  }

  /** Over every run, every entry held has the period it was scheduled with, and the handler: neither
      cancels nor renewals change it. */
  lemma {:induction false} HeldAsScheduled(trace: seq<State>, acts: seq<Action>, n: nat, x: Entry)
    requires IsRun(trace, acts) && n <= |acts| && x in Held(trace[n])
    ensures AsScheduled(trace, acts, n, x)
  {
    assert Held(INIT) == multiset{};
    if n > 0 {
      assert StepAt(trace, acts, n - 1);
      var st, a := trace[n - 1], acts[n - 1];
      HeldAfter(st, a, x);
      if e :| e in Held(st) && x.id == e.id && x.interval == e.interval && (x.Live() ==> x.eh == e.eh) {
        HeldAsScheduled(trace, acts, n - 1, e);
        AsScheduledOn(trace, acts, n - 1, e, x);
      } else {
        assert MadeBy(trace, acts, n - 1, x.id);
      }
    }
  }

  /** Action `j` cancels item `id`. */
  ghost predicate CancelsItem(trace: seq<State>, acts: seq<Action>, j: nat, id: nat)
    requires j < |acts| < |trace|
  {
    acts[j].Cancel? && acts[j].h in trace[j].ti && trace[j].ti[acts[j].h] == id
  }

  lemma {:induction false} CancelledIff(trace: seq<State>, acts: seq<Action>, n: nat, id: nat)
    requires IsRun(trace, acts) && n <= |acts|
    ensures id in trace[n].cancelled <==> exists j :: 0 <= j < n && CancelsItem(trace, acts, j, id)
  {
    if n > 0 {
      assert StepAt(trace, acts, n - 1);
      CancelledIff(trace, acts, n - 1, id);
      assert id in trace[n].cancelled <==> id in trace[n - 1].cancelled || CancelsItem(trace, acts, n - 1, id);
    }
  }

  /** `handleExpired` dereferences nil exactly when the item of the running callback has been
      cancelled and is not renewed: the answer is false, or it was scheduled without a period. */
  lemma CrashIff(trace: seq<State>, acts: seq<Action>, n: nat)
    requires IsRun(trace, acts) && n < |acts| && !trace[n].phase.Crashed?
    ensures trace[n + 1].phase.Crashed?
            <==> && acts[n].Return? && trace[n].phase.InCallback?
                 && (exists j :: 0 <= j < n && CancelsItem(trace, acts, j, trace[n].phase.e.id))
                 && (acts[n].answer ==>
                       exists i :: 0 <= i < n && MadeBy(trace, acts, i, trace[n].phase.e.id) && acts[i].interval <= 0)
  {
    RunKeepsInv(trace, acts, n);
    var st := trace[n];
    assert StepAt(trace, acts, n);
    if acts[n].Return? {
      var e := st.phase.e;
      assert e in Held(st);
      HeldAsScheduled(trace, acts, n, e);
      CancelledIff(trace, acts, n, e.id);
      forall i | 0 <= i < n && MadeBy(trace, acts, i, e.id) ensures acts[i].interval == e.interval {
        var j :| 0 <= j < n && MadeBy(trace, acts, j, e.id) && e.interval == acts[j].interval;
        MadeOnce(trace, acts, n, i, j, e.id);
      }
      if !e.Live() {
        DeadInCallbackWasCancelled(trace, acts, n);
      }
    }
  }

  lemma {:induction false} IdsGrow(trace: seq<State>, acts: seq<Action>, m: nat, n: nat)
    requires IsRun(trace, acts) && m <= n <= |acts|
    ensures trace[m].nextId <= trace[n].nextId
    decreases n
  {
    if m < n {
      IdsGrow(trace, acts, m, n - 1);
      assert StepAt(trace, acts, n - 1);
    }
  }

  /** An item is made once. */
  lemma MadeOnce(trace: seq<State>, acts: seq<Action>, n: nat, i: nat, j: nat, id: nat)
    requires IsRun(trace, acts) && n <= |acts| && i < n && j < n && MadeBy(trace, acts, i, id) && MadeBy(trace, acts, j, id)
    ensures i == j
  {
    if i < j {
      IdsGrow(trace, acts, i + 1, j);
    } else if j < i {
      IdsGrow(trace, acts, j + 1, i);
    }
  }

  lemma {:induction false} DeadInCallbackWasCancelled(trace: seq<State>, acts: seq<Action>, n: nat)
    requires IsRun(trace, acts) && n <= |acts| && trace[n].phase.InCallback? && !trace[n].phase.e.Live()
    ensures trace[n].phase.e.id in trace[n].cancelled
  {
    if n > 0 {
      assert StepAt(trace, acts, n - 1);
      if trace[n - 1].phase.InCallback? && !trace[n - 1].phase.e.Live() {
        DeadInCallbackWasCancelled(trace, acts, n - 1);
      }
    }
  }

  /** A schedule is refused, and changes nothing, exactly for negative parameters or a handler that has
      an item; otherwise it makes one entry and gives it to its handler. */
  lemma ScheduleMakes(st: State, h: nat, now: int, delay: int, interval: int)
    ensures var st' := DoSchedule(st, h, now, delay, interval);
            if delay < 0 || interval < 0 || h in st.ti then st' == st
            else
              && multiset(st'.heap) == multiset(st.heap) + multiset{Entry(st.nextId, now + delay, interval, Some(h))}
              && st'.ti == st.ti[h := st.nextId] && st'.phase == st.phase
  {
    InsertAdds(st.heap, Entry(st.nextId, now + delay, interval, Some(h)));
  }

  /** What becomes of the item whose callback returns, over every run: if it is renewed, it is back on
      the heap a period from the time of the callback, and its handler keeps what it has; otherwise,
      if it was not cancelled, it is gone, and its handler holds none. */
  lemma ReturnSettles(trace: seq<State>, acts: seq<Action>, n: nat, i: nat)
    requires IsRun(trace, acts) && i < n < |acts| && acts[n].Return? && trace[n].phase.InCallback?
    requires MadeBy(trace, acts, i, trace[n].phase.e.id)
    ensures var e, now, st, st' := trace[n].phase.e, trace[n].phase.now, trace[n], trace[n + 1];
            var again := Entry(e.id, now + acts[i].interval, acts[i].interval, e.eh);
            if acts[n].answer && acts[i].interval > 0 then
              st'.phase.Idle? && multiset(st'.heap) == multiset(st.heap) + multiset{again} && st'.ti == st.ti
            else !st'.phase.Crashed? ==> st'.phase.Idle? && st'.heap == st.heap && st'.ti == st.ti - {acts[i].h}
  {
    var e := trace[n].phase.e;
    assert e in Held(trace[n]);
    HeldAsScheduled(trace, acts, n, e);
    var j :| 0 <= j < n && MadeBy(trace, acts, j, e.id) && e.interval == acts[j].interval
             && (e.Live() ==> e.eh == Some(acts[j].h));
    MadeOnce(trace, acts, n, i, j, e.id);
    assert StepAt(trace, acts, n);
    InsertAdds(trace[n].heap, Rearmed(e, trace[n].phase.now));
  }

  lemma ScheduleFirst(h: nat, now: nat)
    ensures DoSchedule(INIT, h, now, 0, 0) == State([Entry(0, now, 0, Some(h))], map[h := 0], 1, Idle, {}, [])
  {
    var e := Entry(0, now, 0, Some(h));
    assert [] + [e] == [e];
    assert Insert([], e) == [e];
  }

  lemma PopOnly(e: Entry, ti: map<nat, nat>, now: nat)
    requires e.Live() && e.expiredAt == now
    ensures DoPop(State([e], ti, 1, Idle, {}, []), now) == State([], ti, 1, InCallback(e, now), {}, [e.id])
  {
    assert [e][0 := e][..0] == [];
    assert PopOne([e], now, SLACK) == (Some(e), 0, []);
  }

  lemma CancelOwn(e: Entry, h: nat, now: nat)
    ensures DoCancel(State([], map[h := e.id], 1, InCallback(e, now), {}, [e.id]), h)
            == State([], map[], 1, InCallback(e.Cancelled(), now), {e.id}, [e.id])
  {
    assert TimerHeap.Cancel([], e.id) == [];
    assert map[h := e.id] - {h} == map[];
  }

  /** It does happen: a one-shot timer that cancels itself in its callback. */
  lemma SelfCancelCrashes(h: nat, now: nat, answer: bool) returns (trace: seq<State>)
    ensures IsRun(trace, [Schedule(h, now, 0, 0), Pop(now), Cancel(h), Return(answer)])
    ensures trace[4].phase.Crashed?
  {
    var e := Entry(0, now, 0, Some(h));
    ScheduleFirst(h, now);
    PopOnly(e, map[h := 0], now);
    CancelOwn(e, h, now);
    var s1 := State([e], map[h := 0], 1, Idle, {}, []);
    var s2 := State([], map[h := 0], 1, InCallback(e, now), {}, [0]);
    var s3 := State([], map[], 1, InCallback(e.Cancelled(), now), {0}, [0]);
    trace := [INIT, s1, s2, s3, s3.(phase := Crashed)];
  }
}
