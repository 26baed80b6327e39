/** The 4-ary timer heap with lazy cancellation (timer_4heap.go:107-201), on values.

    `ShiftUp`, `ShiftDown`, `PopOne` and `Cancel` are the source's operations on
    the list of heap entries.  Cancelling rewrites a key in place, so ordinary heap
    order is lost; what survives is `LiveOrdered`: no live timer expires before a
    live ancestor of it. */
module TimerHeap {
  import opened Basics

  /** A heap entry: the timer item `id`, its key, its period, and the handler it
      fires (`None` once cancelled). */
  datatype Entry = Entry(id: nat, expiredAt: int, interval: int, eh: Option<nat>) {
    predicate Live() { eh.Some? }

    /** What `cancel` makes of the item. */
    function Cancelled(): Entry { this.(expiredAt := 1, eh := None) }
  }

  type Heap = seq<Entry>

  // ----- Shape of the tree -----

  function Parent(i: nat): (p: nat)
    requires i > 0
    ensures p < i
  {
    (i - 1) / 4
  }

  predicate IsChild(c: nat, i: nat) { 4 * i + 1 <= c <= 4 * i + 4 }

  /** `i` is a proper ancestor of `j`. */
  ghost predicate Above(i: nat, j: nat)
    ensures Above(i, j) ==> i < j
  {
    j > 0 && (Parent(j) == i || Above(i, Parent(j)))
  }

  /** The child of `i` on the way down to `j`. */
  ghost function Toward(i: nat, j: nat): (c: nat)
    requires Above(i, j)
    ensures IsChild(c, i) && (c == j || Above(c, j))
  {
    if Parent(j) == i then j else Toward(i, Parent(j))
  }

  lemma {:induction false} AboveTransitive(i: nat, j: nat, k: nat)
    requires Above(i, j) && Above(j, k)
    ensures Above(i, k)
    decreases k
  {
    if Parent(k) != j {
      AboveTransitive(i, j, Parent(k));
    }
  }

  lemma ChildIsAbove(c: nat, i: nat)
    requires IsChild(c, i)
    ensures c > 0 && Parent(c) == i && Above(i, c)
  {
  }

  lemma {:induction false} RootAboveAll(j: nat)
    requires j > 0
    ensures Above(0, j)
  {
    if Parent(j) != 0 {
      RootAboveAll(Parent(j));
    }
  }

  // ----- Order -----

  ghost predicate LiveOrdered(s: Heap) {
    OrderedApartFrom(s, |s|)
  }

  /** Live entries respect their live ancestors, slot `hole` left out of account. */
  ghost predicate OrderedApartFrom(s: Heap, hole: nat) {
    forall i, j :: 0 <= i < |s| && 0 <= j < |s| && i != hole && j != hole && Above(i, j) && s[i].Live() && s[j].Live()
                   ==> s[i].expiredAt <= s[j].expiredAt
  }

  /** Keys as the source writes them: the clock plus a delay for a live timer,
      the constant 1 for a cancelled one. */
  ghost predicate WellKeyed(s: Heap) {
    forall i :: 0 <= i < |s| ==> s[i].expiredAt >= 1 && (!s[i].Live() ==> s[i].expiredAt == 1)
  }

  ghost predicate AllLive(s: Heap) {
    forall i :: 0 <= i < |s| ==> s[i].Live()
  }

  /** Every live entry of `s` expires at `key` or later. */
  ghost predicate LiveFrom(s: Heap, key: int) {
    forall x :: x in s && x.Live() ==> key <= x.expiredAt
  }

  function Swap(s: Heap, i: nat, j: nat): (r: Heap)
    requires i < |s| && j < |s|
    ensures |r| == |s|
  {
    s[i := s[j]][j := s[i]]
  }

  // ----- The source's loops -----

  /** timer_4heap.go:166-174 */
  function ShiftUp(s: Heap, i: nat): (r: Heap)
    requires i < |s|
    ensures |r| == |s|
    decreases i
  {
    if i > 0 && s[i].expiredAt < s[Parent(i)].expiredAt then ShiftUp(Swap(s, i, Parent(i)), Parent(i)) else s
  }

  /** The scan over the children from `k` on; ties stay with the earlier candidate. */
  function SmallestFrom(s: Heap, best: nat, k: nat, end: nat): (r: nat)
    requires best < |s| && k <= end <= |s|
    ensures r < |s| && (r == best || k <= r < end)
    decreases end - k
  {
    if k == end then best
    else SmallestFrom(s, if s[k].expiredAt < s[best].expiredAt then k else best, k + 1, end)
  }

  /** The scan finds an earliest entry, and prefers the one it started with. */
  lemma {:induction false} SmallestIsEarliest(s: Heap, best: nat, k: nat, end: nat)
    requires best < |s| && k <= end <= |s|
    ensures var r := SmallestFrom(s, best, k, end);
            && s[r].expiredAt <= s[best].expiredAt
            && (r != best ==> s[r].expiredAt < s[best].expiredAt)
            && (forall c :: k <= c < end ==> s[r].expiredAt <= s[c].expiredAt)
    decreases end - k
  {
    if k < end {
      SmallestIsEarliest(s, if s[k].expiredAt < s[best].expiredAt then k else best, k + 1, end);
    }
  }

  function ChildEnd(n: nat, i: nat): nat {
    if 4 * i + 5 < n then 4 * i + 5 else n
  }

  /** timer_4heap.go:176-201 */
  function ShiftDown(s: Heap, i: nat): (r: Heap)
    ensures |r| == |s|
    decreases |s| - i
  {
    if 4 * i + 1 < |s| then
      var c := SmallestFrom(s, i, 4 * i + 1, ChildEnd(|s|, i));
      if c != i then ShiftDown(Swap(s, i, c), c) else s
    else s
  }

  /** timer_4heap.go:147-164 */
  function PopOne(s: Heap, now: int, errorVal: int): (r: (Option<Entry>, int, Heap))
  {
    if |s| == 0 then (None, 0, s)
    else
      var delta := s[0].expiredAt - now;
      if delta > errorVal then (None, delta, s)
      else
        var last := |s| - 1;
        (Some(s[0]), 0, ShiftDown(s[0 := s[last]][..last], 0))
  }

  /** timer_4heap.go:107-116, seen from the heap: the item is rewritten where it stands. */
  function Cancel(s: Heap, id: nat): (r: Heap)
    ensures |r| == |s|
    ensures forall i :: 0 <= i < |s| ==> r[i] == if s[i].id == id then s[i].Cancelled() else s[i]
  {
    seq(|s|, i requires 0 <= i < |s| => if s[i].id == id then s[i].Cancelled() else s[i])
  }

  // ----- The entries are only moved around -----

  lemma {:induction false} ShiftUpPermutes(s: Heap, i: nat)
    requires i < |s|
    ensures multiset(ShiftUp(s, i)) == multiset(s)
    decreases i
  {
    if i > 0 && s[i].expiredAt < s[Parent(i)].expiredAt {
      ShiftUpPermutes(Swap(s, i, Parent(i)), Parent(i));
    }
  }

  lemma {:induction false} ShiftDownPermutes(s: Heap, i: nat)
    ensures multiset(ShiftDown(s, i)) == multiset(s)
    decreases |s| - i
  {
    if 4 * i + 1 < |s| {
      var c := SmallestFrom(s, i, 4 * i + 1, ChildEnd(|s|, i));
      if c != i {
        ShiftDownPermutes(Swap(s, i, c), c);
      }
    }
  }

  /** `popOne` takes exactly the entry it hands out. */
  lemma PopOneTakes(s: Heap, now: int, errorVal: int)
    ensures var (e, _, r) := PopOne(s, now, errorVal);
            if e.None? then r == s else multiset(s) == multiset(r) + multiset{e.value}
  {
    if s != [] && s[0].expiredAt - now <= errorVal {
      var last := |s| - 1;
      var moved := s[0 := s[last]][..last];
      ShiftDownPermutes(moved, 0);
      assert Swap(s, 0, last) == moved + [s[0]];
      assert multiset(Swap(s, 0, last)) == multiset(s);
    }
  }

  lemma InsertAdds(s: Heap, e: Entry)
    ensures multiset(Insert(s, e)) == multiset(s) + multiset{e}
  {
    ShiftUpPermutes(s + [e], |s|);
  }

  // ----- Sifting down -----

  /** The state of the loop of `shiftDown` at slot `i`: everything but that slot is
      in order, and the slot respects its own live ancestors. */
  ghost predicate SinkingAt(s: Heap, i: nat) {
    && OrderedApartFrom(s, i)
    && (forall a :: 0 <= a < |s| && i < |s| && Above(a, i) && s[a].Live() && s[i].Live()
                    ==> s[a].expiredAt <= s[i].expiredAt)
  }

  /** An entry no later than every child of slot `i` is no later than any live entry below `i`. */
  lemma BelowChildren(s: Heap, i: nat, d: nat, key: int)
    requires WellKeyed(s) && OrderedApartFrom(s, i) && Above(i, d) && d < |s| && s[d].Live()
    requires forall c: nat :: IsChild(c, i) && c < |s| ==> key <= s[c].expiredAt
    ensures key <= s[d].expiredAt
  {
    var c := Toward(i, d);
    ChildIsAbove(c, i);
    if c != d && s[c].Live() {
      assert s[c].expiredAt <= s[d].expiredAt;
    }
  }

  lemma SinkStep(s: Heap, i: nat, c: nat)
    requires WellKeyed(s) && SinkingAt(s, i) && i < |s| && IsChild(c, i) && c < |s|
    requires s[c].expiredAt < s[i].expiredAt
    requires forall e: nat :: IsChild(e, i) && e < |s| ==> s[c].expiredAt <= s[e].expiredAt
    ensures SinkingAt(Swap(s, i, c), c) && WellKeyed(Swap(s, i, c))
  {
    var t := Swap(s, i, c);
    ChildIsAbove(c, i);
    forall a, d | 0 <= a < |t| && 0 <= d < |t| && a != c && d != c && Above(a, d) && t[a].Live() && t[d].Live()
      ensures t[a].expiredAt <= t[d].expiredAt
    {
      if a == i {
        BelowChildren(s, i, d, s[c].expiredAt);
      } else if d == i {
        AboveTransitive(a, i, c);
      }
    }
  }

  /** From any state of its loop, `shiftDown` restores the order of live timers. */
  lemma {:induction false} ShiftDownOrders(s: Heap, i: nat)
    requires WellKeyed(s) && SinkingAt(s, i)
    ensures LiveOrdered(ShiftDown(s, i)) && WellKeyed(ShiftDown(s, i))
    decreases |s| - i
  {
    if i < |s| {
      var c := i;
      if 4 * i + 1 < |s| {
        c := SmallestFrom(s, i, 4 * i + 1, ChildEnd(|s|, i));
        SmallestIsEarliest(s, i, 4 * i + 1, ChildEnd(|s|, i));
      }
      if c != i {
        SinkStep(s, i, c);
        ShiftDownOrders(Swap(s, i, c), c);
      } else {
        forall a, d | 0 <= a < |s| && 0 <= d < |s| && Above(a, d) && s[a].Live() && s[d].Live()
          ensures s[a].expiredAt <= s[d].expiredAt
        {
          if a == i {
            BelowChildren(s, i, d, s[i].expiredAt);
          }
        }
      }
    }
  }

  // ----- Sifting up -----

  /** The state of the loop of `shiftUp` at slot `i`. */
  ghost predicate RisingAt(s: Heap, i: nat) {
    && i < |s|
    && s[i].Live()
    && OrderedApartFrom(s, i)
    && (forall d :: 0 <= d < |s| && Above(i, d) && s[d].Live() ==> s[i].expiredAt <= s[d].expiredAt)
  }

  /** No cancelled entry shields the rising one from a later live ancestor. */
  ghost predicate Unshielded(s: Heap, i: nat)
    requires i < |s|
  {
    forall a, b :: 0 <= a < |s| && 0 <= b < |s| && Above(a, b) && Above(b, i) && s[a].Live() && !s[b].Live()
                   ==> s[a].expiredAt <= s[i].expiredAt
  }

  lemma RiseStep(s: Heap, i: nat)
    requires WellKeyed(s) && RisingAt(s, i) && i > 0 && s[i].expiredAt < s[Parent(i)].expiredAt
    ensures var t := Swap(s, i, Parent(i)); WellKeyed(t) && RisingAt(t, Parent(i))
    ensures var t := Swap(s, i, Parent(i)); Unshielded(t, Parent(i)) <==> Unshielded(s, i)
  {
    var p := Parent(i);
    var t := Swap(s, i, p);
    assert Above(p, i) && s[p].Live();
    forall a, d | 0 <= a < |t| && 0 <= d < |t| && a != p && d != p && Above(a, d) && t[a].Live() && t[d].Live()
      ensures t[a].expiredAt <= t[d].expiredAt
    {
      if d == i {
        assert Above(a, p);
      } else if a == i {
        AboveTransitive(p, i, d);
      }
    }
    forall d | 0 <= d < |t| && Above(p, d) && t[d].Live() ensures t[p].expiredAt <= t[d].expiredAt {
    }
    if Unshielded(s, i) {
      forall a, b | 0 <= a < |t| && 0 <= b < |t| && Above(a, b) && Above(b, p) && t[a].Live() && !t[b].Live()
        ensures t[a].expiredAt <= t[p].expiredAt
      {
        assert Above(b, i);
      }
    }
    if Unshielded(t, p) {
      forall a, b | 0 <= a < |s| && 0 <= b < |s| && Above(a, b) && Above(b, i) && s[a].Live() && !s[b].Live()
        ensures s[a].expiredAt <= s[i].expiredAt
      {
        assert Above(b, p);
      }
    }
  }

  /** `shiftUp` restores the order of live timers exactly when no cancelled ancestor
      shields the new entry from a live one above it that is later. */
  lemma {:induction false} ShiftUpOrdersIff(s: Heap, i: nat)
    requires WellKeyed(s) && RisingAt(s, i)
    ensures LiveOrdered(ShiftUp(s, i)) <==> Unshielded(s, i)
    ensures WellKeyed(ShiftUp(s, i))
    decreases i
  {
    if i > 0 && s[i].expiredAt < s[Parent(i)].expiredAt {
      RiseStep(s, i);
      ShiftUpOrdersIff(Swap(s, i, Parent(i)), Parent(i));
    } else if Unshielded(s, i) {
      forall a, d | 0 <= a < |s| && 0 <= d < |s| && Above(a, d) && s[a].Live() && s[d].Live()
        ensures s[a].expiredAt <= s[d].expiredAt
      {
        if d == i && a != Parent(i) {
          assert Above(a, Parent(i)) && Above(Parent(i), i);
        }
      }
    } else {
      var a, b :| 0 <= a < |s| && 0 <= b < |s| && Above(a, b) && Above(b, i) && s[a].Live() && !s[b].Live()
                  && s[a].expiredAt > s[i].expiredAt;
      AboveTransitive(a, b, i);
    }
  }

  /** Appending and sifting up, as `schedule` and the re-arming of a periodic timer do. */
  function Insert(s: Heap, e: Entry): (r: Heap)
    ensures |r| == |s| + 1
  {
    ShiftUp(s + [e], |s|)
  }

  lemma InsertOrdersIff(s: Heap, e: Entry)
    requires LiveOrdered(s) && WellKeyed(s) && e.Live() && e.expiredAt >= 1
    ensures LiveOrdered(Insert(s, e)) <==> Unshielded(s + [e], |s|)
    ensures WellKeyed(Insert(s, e))
  {
    var t := s + [e];
    forall a, d | 0 <= a < |t| && 0 <= d < |t| && a != |s| && d != |s| && Above(a, d) && t[a].Live() && t[d].Live()
      ensures t[a].expiredAt <= t[d].expiredAt
    {
      assert s[a].expiredAt <= s[d].expiredAt;
    }
    ShiftUpOrdersIff(t, |s|);
  }

  // ----- What the order is for -----

  /** In a live-ordered heap the root is never later than any live timer. */
  lemma RootIsEarliest(s: Heap, j: nat)
    requires LiveOrdered(s) && WellKeyed(s) && j < |s| && s[j].Live()
    ensures s[0].expiredAt <= s[j].expiredAt
  {
    if j > 0 {
      RootAboveAll(j);
    }
  }

  /** Cancelling keeps the live timers in order, although it breaks heap order. */
  lemma CancelKeepsOrder(s: Heap, id: nat)
    requires LiveOrdered(s) && WellKeyed(s)
    ensures LiveOrdered(Cancel(s, id)) && WellKeyed(Cancel(s, id))
  {
    var r := Cancel(s, id);
    forall a, d | 0 <= a < |r| && 0 <= d < |r| && Above(a, d) && r[a].Live() && r[d].Live()
      ensures r[a].expiredAt <= r[d].expiredAt
    {
      assert s[a].Live() && s[d].Live();
    }
  }

  /** The heap `popOne` sifts down: the last entry moved into the place of the root. */
  lemma RootReplaced(s: Heap)
    requires LiveOrdered(s) && WellKeyed(s) && s != []
    ensures var moved := s[0 := s[|s| - 1]][..|s| - 1]; WellKeyed(moved) && SinkingAt(moved, 0)
  {
    var moved := s[0 := s[|s| - 1]][..|s| - 1];
    forall a, d | 0 <= a < |moved| && 0 <= d < |moved| && a != 0 && d != 0 && Above(a, d) && moved[a].Live() && moved[d].Live()
      ensures moved[a].expiredAt <= moved[d].expiredAt
    {
      assert s[a] == moved[a] && s[d] == moved[d];
    }
  }

  lemma PopOneKeepsOrder(s: Heap, now: int, errorVal: int)
    requires LiveOrdered(s) && WellKeyed(s)
    ensures LiveOrdered(PopOne(s, now, errorVal).2) && WellKeyed(PopOne(s, now, errorVal).2)
  {
    if s != [] && s[0].expiredAt - now <= errorVal {
      RootReplaced(s);
      ShiftDownOrders(s[0 := s[|s| - 1]][..|s| - 1], 0);
    }
  }

  /** `popOne` hands out an entry exactly when one no later than `now + errorVal` is at the
      root, and it is then no later than any live timer; otherwise no live timer is due. */
  lemma PopOneIsEarliest(s: Heap, now: int, errorVal: int)
    requires LiveOrdered(s) && WellKeyed(s)
    ensures var (e, delta, r) := PopOne(s, now, errorVal);
            match e
            case Some(x) =>
              && x in s && x.expiredAt <= now + errorVal && delta == 0
              && LiveFrom(s, x.expiredAt)
            case None =>
              && LiveFrom(s, now + errorVal + 1)
              && (s == [] ==> delta == 0)
              && (s != [] ==> delta == s[0].expiredAt - now && delta > errorVal)
  {
    forall x | x in s && x.Live() ensures s[0].expiredAt <= x.expiredAt {
      var j :| 0 <= j < |s| && s[j] == x;
      RootIsEarliest(s, j);
    }
  }

  // ----- Runs -----

  datatype Op = DoInsert(e: Entry) | DoCancel(id: nat) | DoPop(now: int, errorVal: int)

  /** One operation: the heap it leaves and the live timer it hands out, if any. */
  ghost function Step(s: Heap, op: Op): (Heap, seq<Entry>) {
    match op
    case DoInsert(e) => (Insert(s, e), [])
    case DoCancel(id) => (Cancel(s, id), [])
    case DoPop(now, errorVal) =>
      var (e, _, r) := PopOne(s, now, errorVal);
      (r, if e.Some? && e.value.Live() then [e.value] else [])
  }

  /** What is inserted is a live timer. */
  predicate ProperOp(op: Op) { op.DoInsert? ==> op.e.Live() && op.e.expiredAt >= 1 }

  predicate ProperOps(ops: seq<Op>) { forall i :: 0 <= i < |ops| ==> ProperOp(ops[i]) }

  /** An insert that no cancelled entry keeps from rising far enough. */
  ghost predicate Orderly(s: Heap, op: Op) { op.DoInsert? ==> Unshielded(s + [op.e], |s|) }

  /** A run from `s`: the heap it ends with and the live timers it handed out. */
  ghost function Run(s: Heap, ops: seq<Op>): (Heap, seq<Entry>)
    decreases |ops|
  {
    if ops == [] then (s, [])
    else
      var (r, first) := Step(s, ops[0]);
      var (t, rest) := Run(r, ops[1..]);
      (t, first + rest)
  }

  ghost predicate NoEarlierThan(out: seq<Entry>, key: int) {
    forall i :: 0 <= i < |out| ==> key <= out[i].expiredAt
  }

  ghost predicate Sorted(out: seq<Entry>) {
    forall i, j :: 0 <= i <= j < |out| ==> out[i].expiredAt <= out[j].expiredAt
  }

  lemma CancelKeepsBound(s: Heap, id: nat, key: int)
    requires LiveFrom(s, key)
    ensures LiveFrom(Cancel(s, id), key)
  {
    forall x | x in Cancel(s, id) && x.Live() ensures key <= x.expiredAt {
      var j :| 0 <= j < |s| && Cancel(s, id)[j] == x;
      assert s[j] in s;
    }
  }

  lemma PopOneKeepsBound(s: Heap, now: int, errorVal: int, key: int)
    requires LiveFrom(s, key)
    ensures LiveFrom(PopOne(s, now, errorVal).2, key)
  {
    var r := PopOne(s, now, errorVal).2;
    PopOneTakes(s, now, errorVal);
    forall x | x in r ensures x in s {
      assert x in multiset(r) && x in multiset(s);
    }
  }

  lemma InsertKeepsBound(s: Heap, e: Entry, key: int)
    requires LiveFrom(s, key) && key <= e.expiredAt
    ensures LiveFrom(Insert(s, e), key)
  {
    InsertAdds(s, e);
    forall x | x in Insert(s, e) ensures x in s || x == e {
      assert x in multiset(Insert(s, e));
    }
  }

  /** Only an insert can break the order, and it does so exactly when it is not orderly. */
  lemma StepOrderedIff(s: Heap, op: Op)
    requires LiveOrdered(s) && WellKeyed(s) && ProperOp(op)
    ensures WellKeyed(Step(s, op).0)
    ensures LiveOrdered(Step(s, op).0) <==> Orderly(s, op)
  {
    match op
    case DoInsert(e) => InsertOrdersIff(s, e);
    case DoCancel(id) => CancelKeepsOrder(s, id);
    case DoPop(now, errorVal) => PopOneKeepsOrder(s, now, errorVal);
  }

  /** The live timers are in order in every state of the run. */
  ghost predicate AlwaysOrdered(s: Heap, ops: seq<Op>)
    decreases |ops|
  {
    LiveOrdered(s) && (ops == [] || AlwaysOrdered(Step(s, ops[0]).0, ops[1..]))
  }

  /** Every insert of the run is orderly when it is made. */
  ghost predicate AllOrderly(s: Heap, ops: seq<Op>)
    decreases |ops|
  {
    ops == [] || (Orderly(s, ops[0]) && AllOrderly(Step(s, ops[0]).0, ops[1..]))
  }

  /** Over every run of inserts, cancels and pops the live timers stay ordered exactly when every
      insert is orderly. */
  lemma {:induction false} RunOrderedIff(s: Heap, ops: seq<Op>)
    requires LiveOrdered(s) && WellKeyed(s) && ProperOps(ops)
    ensures AlwaysOrdered(s, ops) <==> AllOrderly(s, ops)
    decreases |ops|
  {
    if ops != [] {
      assert ProperOp(ops[0]) && ProperOps(ops[1..]);
      StepOrderedIff(s, ops[0]);
      var r := Step(s, ops[0]).0;
      if LiveOrdered(r) {
        RunOrderedIff(r, ops[1..]);
      }
    }
  }

  /** Every live timer handed out is no later than any live timer still on the heap. */
  ghost predicate AlwaysEarliest(s: Heap, ops: seq<Op>)
    decreases |ops|
  {
    ops == [] ||
    (var (r, out) := Step(s, ops[0]);
     (forall e :: e in out ==> LiveFrom(r, e.expiredAt)) && AlwaysEarliest(r, ops[1..]))
  }

  lemma StepPopsEarliest(s: Heap, op: Op)
    requires LiveOrdered(s) && WellKeyed(s)
    ensures var (r, out) := Step(s, op);
            |out| <= 1 && forall e :: e in out ==> LiveFrom(s, e.expiredAt) && LiveFrom(r, e.expiredAt)
  {
    if op.DoPop? {
      PopOneIsEarliest(s, op.now, op.errorVal);
      var e := PopOne(s, op.now, op.errorVal).0;
      if e.Some? {
        PopOneKeepsBound(s, op.now, op.errorVal, e.value.expiredAt);
      }
    }
  }

  /** In such a run every pop is of an earliest timer, whatever was inserted before. */
  lemma {:induction false} RunPopsEarliest(s: Heap, ops: seq<Op>)
    requires LiveOrdered(s) && WellKeyed(s) && ProperOps(ops) && AllOrderly(s, ops)
    ensures AlwaysEarliest(s, ops)
    decreases |ops|
  {
    if ops != [] {
      assert ProperOp(ops[0]) && ProperOps(ops[1..]);
      StepOrderedIff(s, ops[0]);
      StepPopsEarliest(s, ops[0]);
      RunPopsEarliest(Step(s, ops[0]).0, ops[1..]);
    }
  }

  /** No insert of the run is earlier than what was handed out last, starting with `key`. */
  ghost predicate InsertsFrom(s: Heap, ops: seq<Op>, key: int)
    decreases |ops|
  {
    ops == [] ||
    (var (r, out) := Step(s, ops[0]);
     (ops[0].DoInsert? ==> key <= ops[0].e.expiredAt)
     && InsertsFrom(r, ops[1..], if out == [] then key else out[0].expiredAt))
  }

  lemma StepKeepsBound(s: Heap, op: Op, key: int)
    requires LiveFrom(s, key) && (op.DoInsert? ==> key <= op.e.expiredAt)
    ensures LiveFrom(Step(s, op).0, key)
  {
    match op
    case DoInsert(e) => InsertKeepsBound(s, e, key);
    case DoCancel(id) => CancelKeepsBound(s, id, key);
    case DoPop(now, errorVal) => PopOneKeepsBound(s, now, errorVal, key);
  }

  lemma HandedOutFrom(s: Heap, op: Op, key: int)
    requires LiveFrom(s, key)
    ensures forall e :: e in Step(s, op).1 ==> key <= e.expiredAt
  {
    if op.DoPop? {
      PopOneTakes(s, op.now, op.errorVal);
    }
  }

  /** And if no insert is earlier than what was handed out before it, as without inserts, the live
      timers of the whole run come out in the order of their expiry. */
  lemma {:induction false} RunPopsInOrder(s: Heap, ops: seq<Op>, key: int)
    requires LiveOrdered(s) && WellKeyed(s) && LiveFrom(s, key)
    requires ProperOps(ops) && AllOrderly(s, ops) && InsertsFrom(s, ops, key)
    ensures var (t, out) := Run(s, ops);
            LiveOrdered(t) && WellKeyed(t) && LiveFrom(t, key) && Sorted(out) && NoEarlierThan(out, key)
    decreases |ops|
  {
    if ops != [] {
      assert ProperOp(ops[0]) && ProperOps(ops[1..]);
      StepOrderedIff(s, ops[0]);
      StepPopsEarliest(s, ops[0]);
      StepKeepsBound(s, ops[0], key);
      HandedOutFrom(s, ops[0], key);
      var (r, first) := Step(s, ops[0]);
      if first == [] {
        RunPopsInOrder(r, ops[1..], key);
      } else {
        assert first[0] in first;
        RunPopsInOrder(r, ops[1..], first[0].expiredAt);
        LiveFromWeaker(Run(r, ops[1..]).0, first[0].expiredAt, key);
      }
    }
  }

  lemma {:induction false} WithoutInserts(s: Heap, ops: seq<Op>, key: int)
    requires forall i :: 0 <= i < |ops| ==> !ops[i].DoInsert?
    ensures AllOrderly(s, ops) && InsertsFrom(s, ops, key)
    decreases |ops|
  {
    if ops != [] {
      var (r, out) := Step(s, ops[0]);
      WithoutInserts(r, ops[1..], if out == [] then key else out[0].expiredAt);
    }
  }

  /** Cancels alone never disturb the order in which timers come out. */
  lemma CancelsKeepPopsInOrder(s: Heap, ops: seq<Op>, key: int)
    requires LiveOrdered(s) && WellKeyed(s) && LiveFrom(s, key)
    requires forall i :: 0 <= i < |ops| ==> !ops[i].DoInsert?
    ensures var (t, out) := Run(s, ops);
            LiveOrdered(t) && WellKeyed(t) && LiveFrom(t, key) && Sorted(out) && NoEarlierThan(out, key)
  {
    WithoutInserts(s, ops, key);
    RunPopsInOrder(s, ops, key);
  }

  lemma LiveFromWeaker(s: Heap, key: int, weaker: int)
    requires LiveFrom(s, key) && weaker <= key
    ensures LiveFrom(s, weaker)
  {
  }

  /** With cancels a later insert can break the order: a live timer at 5 under a live
      root at 10, shielded by a cancelled parent. */
  lemma InsertUnderCancelledBreaksOrder(s: Heap, e: Entry)
    requires s == [Entry(0, 10, 0, Some(0)), Entry(1, 1, 0, None), Entry(2, 10, 0, Some(2)),
                   Entry(3, 10, 0, Some(3)), Entry(4, 10, 0, Some(4))]
    requires e == Entry(5, 5, 0, Some(5))
    ensures LiveOrdered(s) && WellKeyed(s) && !LiveOrdered(Insert(s, e))
  {
    assert forall i :: 0 <= i < 5 && s[i].Live() ==> s[i].expiredAt == 10;
    InsertOrdersIff(s, e);
    assert !Unshielded(s + [e], 5) by {
      assert Parent(5) == 1 && Parent(1) == 0;
      assert Above(0, 1) && Above(1, 5);
      assert (s + [e])[0] == s[0] && (s + [e])[1] == s[1];
    }
  }
}
