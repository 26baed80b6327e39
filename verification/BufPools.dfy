/** The size-class buffer pool (bufpool.go): three tables of pools in steps of 128 bytes, 1 KiB
    and 1 MiB, each pool switched off while it is little used. */
module BufPools {
  import opened Basics

  const KIB := 1024
  const MIB := 1024 * 1024
  const BT_CLASSES := 7
  const KB_CLASSES := 1023
  const MB_CLASSES := 16

  // ----- From sizes to classes -----

  /** A place in one of the three tables, or none. */
  datatype Slot = Bt(i: int) | Kb(i: int) | Mb(i: int) | Unpooled

  /** The index arithmetic of BMalloc and BFree (bufpool.go:62-71, 78-86). */
  function Route(s: nat): Slot {
    if s < 128 * 7 + 1 then Bt((s + 127) / 128 - 1)
    else if s < MIB + 1 then Kb((s + (KIB - 1)) / KIB - 1)
    else if s < MIB * MB_CLASSES + 1 then Mb((s + (MIB - 1)) / MIB - 1)
    else Unpooled
  }

  /** The table has such an entry. */
  predicate InTable(r: Slot) {
    match r
    case Bt(i) => 0 <= i < BT_CLASSES
    case Kb(i) => 0 <= i < KB_CLASSES
    case Mb(i) => 0 <= i < MB_CLASSES
    case Unpooled => false
  }

  function ClassSize(r: Slot): int {
    match r
    case Bt(i) => (i + 1) * 128
    case Kb(i) => (i + 1) * KIB
    case Mb(i) => (i + 1) * MIB
    case Unpooled => 0
  }

  /** The sizes the second table is asked for but does not have. */
  predicate InGap(s: nat) { 1023 * KIB < s <= MIB }

  /** Indexing is within bounds exactly outside 0 and the gap below 1 MiB. */
  lemma RouteInTableIff(s: nat)
    ensures Route(s) == Unpooled || InTable(Route(s)) <==> s != 0 && !InGap(s)
    ensures Route(s) == Unpooled <==> s > 16 * 1024 * 1024
  {
  }

  /** A class holds what is routed to it. */
  lemma RouteFits(s: nat)
    requires InTable(Route(s))
    ensures s <= ClassSize(Route(s))
  {
  }

  /** And no smaller class of its table does. */
  lemma RouteIsTight(s: nat)
    requires s != 0 && Route(s) != Unpooled
    ensures match Route(s)
            case Bt(i) => ClassSize(Bt(i - 1)) < s
            case Kb(i) => ClassSize(Kb(i - 1)) < s
            case Mb(i) => ClassSize(Mb(i - 1)) < s
            case Unpooled => true
  {
  }

  /** A buffer of the size of a class goes back to that class: for every class but the first of
      the third table, which nothing is ever routed to. */
  lemma RouteBackIff(r: Slot)
    requires InTable(r)
    ensures Route(ClassSize(r)) == r <==> r != Mb(0)
  {
  }

  lemma FirstMbClassUnused(s: nat)
    ensures Route(s) != Mb(0)
  {
  }

  // ----- One pool -----

  /** A slice: its backing array, length and capacity. */
  datatype Buf = Buf(id: nat, len: nat, cap: nat)

  datatype Pool = Pool(disabled: bool, allocTimes: int, size: nat, free: set<Buf>)

  const ACTIVE_TIMES := 5

  function WrapInt32(n: int): int { (n + 0x8000_0000) % 0x1_0000_0000 - 0x8000_0000 }

  /** buffPool.adjust: a pool whose counter is below five is switched off. */
  function Adjusted(p: Pool): Pool { p.(allocTimes := 0, disabled := p.allocTimes < ACTIVE_TIMES) }

  /** The request is for the pool at `q`. */
  predicate CountsFor(s: int, q: Slot) { s >= 1 && Route(s) == q }

  /** How many of the requests are. */
  function Requests(sizes: seq<int>, q: Slot): nat {
    if sizes == [] then 0
    else Requests(sizes[..|sizes| - 1], q) + if CountsFor(sizes[|sizes| - 1], q) then 1 else 0
  }

  lemma WrapNext(n: int)
    ensures WrapInt32(WrapInt32(n) + 1) == WrapInt32(n + 1)
  {
  }

  lemma RequestsNext(sizes: seq<int>, i: nat, q: Slot)
    requires i < |sizes|
    ensures Requests(sizes[..i + 1], q) == Requests(sizes[..i], q) + if CountsFor(sizes[i], q) then 1 else 0
    ensures WrapInt32(Requests(sizes[..i + 1], q))
            == if CountsFor(sizes[i], q) then WrapInt32(WrapInt32(Requests(sizes[..i], q)) + 1) else WrapInt32(Requests(sizes[..i], q))
  {
    assert sizes[..i + 1][..i] == sizes[..i];
    WrapNext(Requests(sizes[..i], q));
  }

  /** The counter of `n` requests is below five for fewer than five, and again whenever the 32 bits
      wrap to below five or into the sign. */
  lemma LittleUsedIff(n: nat)
    ensures WrapInt32(n) < ACTIVE_TIMES <==> n % 0x1_0000_0000 < 5 || n % 0x1_0000_0000 >= 0x8000_0000
    ensures n < 0x8000_0000 ==> (WrapInt32(n) < ACTIVE_TIMES <==> n < 5)
  {
  }

  /** A pool after a request, which was for it or not. */
  predicate Counted(before: Pool, after: Pool, it: bool) {
    after.disabled == before.disabled
    && after.allocTimes == if it then WrapInt32(before.allocTimes + 1) else before.allocTimes
  }

  // ----- The tables -----

  /** Where a backing array is: with a user (with the given capacity), or in a pool. */
  datatype Place = Out(cap: nat) | In(r: Slot)

  ghost predicate PoolOk(p: Pool, r: Slot, place: map<nat, Place>) {
    && p.size == ClassSize(r)
    && (forall b :: b in p.free ==> b.len == b.cap == p.size && b.id in place && place[b.id] == In(r))
  }

  class BufferPools {
    const btPool: array<Pool>
    const kbPool: array<Pool>
    const mbPool: array<Pool>
    ghost var place: map<nat, Place>
    var nextId: nat

    /** The pool at a place of the tables. */
    ghost function At(r: Slot): Pool
      requires Shape() && InTable(r)
      reads btPool, kbPool, mbPool
    {
      match r
      case Bt(i) => btPool[i]
      case Kb(i) => kbPool[i]
      case Mb(i) => mbPool[i]
    }

    /** sync.Pool finds `pick` in the pool at `r`, which is in use. */
    ghost predicate Finds(r: Slot, pick: Option<Buf>)
      requires Shape()
      reads btPool, kbPool, mbPool
    {
      InTable(r) && !At(r).disabled && pick.Some? && pick.value in At(r).free
    }

    ghost predicate Shape() {
      && btPool.Length == BT_CLASSES && kbPool.Length == KB_CLASSES && mbPool.Length == MB_CLASSES
      && btPool != kbPool && btPool != mbPool && kbPool != mbPool
    }

    /** Every pooled buffer is whole, of its class's size, and with nobody else; what users hold
        has a capacity that BFree can deal with, except the empty buffer. */
    ghost predicate Valid()
      reads this, btPool, kbPool, mbPool
    {
      && Shape()
      && (forall r :: InTable(r) ==> PoolOk(At(r), r, place))
      && (forall id :: id in place ==> id < nextId)
      && (forall id :: id in place && place[id].Out? ==> !InGap(place[id].cap))
    }

    constructor ()
      ensures Valid() && place == map[]
      ensures forall r :: InTable(r) ==> At(r).free == {} && !At(r).disabled
    {
      btPool := new Pool[BT_CLASSES](i => Pool(false, 0, if i < 0 then 0 else (i + 1) * 128, {}));
      kbPool := new Pool[KB_CLASSES](i => Pool(false, 0, if i < 0 then 0 else (i + 1) * KIB, {}));
      mbPool := new Pool[MB_CLASSES](i => Pool(false, 0, if i < 0 then 0 else (i + 1) * MIB, {}));
      place, nextId := map[], 0;
    }

    method GetPool(r: Slot) returns (p: Pool)
      requires Shape() && InTable(r)
      ensures p == At(r)
    {
      match r
      case Bt(i) => p := btPool[i];
      case Kb(i) => p := kbPool[i];
      case Mb(i) => p := mbPool[i];
    }

    method SetPool(r: Slot, p: Pool)
      requires Shape() && InTable(r)
      modifies btPool, kbPool, mbPool
      ensures At(r) == p && forall q :: InTable(q) && q != r ==> At(q) == old(At(q))
    {
      match r
      case Bt(i) => btPool[i] := p;
      case Kb(i) => kbPool[i] := p;
      case Mb(i) => mbPool[i] := p;
    }

    /** A buffer of its own, from the allocator of the runtime. */
    method Make(len: nat) returns (bf: Buf)
      requires Valid() && !InGap(len)
      modifies this
      ensures Valid() && bf == Buf(old(nextId), len, len) && bf.id !in old(place)
      ensures place == old(place)[bf.id := Out(len)]
    {
      bf := Buf(nextId, len, len);
      place := place[nextId := Out(len)];
      nextId := nextId + 1;
    }

    /** buffPool.alloc; `pick` is the buffer sync.Pool finds, if any.  It may miss one, and it may
        have dropped some. */
    method Alloc(r: Slot, s: nat, pick: Option<Buf>) returns (bf: Buf)
      requires Valid() && InTable(r) && 1 <= s <= ClassSize(r) && r != Mb(0) && Route(s) == r
      modifies this, btPool, kbPool, mbPool
      ensures Valid() && bf.len == s <= bf.cap
      ensures bf.cap == if old(At(r)).disabled then s else ClassSize(r)
      ensures bf.id !in old(place) || old(place)[bf.id] == In(r)
      ensures place == old(place)[bf.id := Out(bf.cap)]
      ensures forall q :: InTable(q) && q != r ==> At(q) == old(At(q))
      ensures if old(Finds(r, pick)) then bf == pick.value.(len := s) && At(r).free == old(At(r)).free - {pick.value}
              else bf.id !in old(place) && At(r).free == old(At(r)).free
      ensures At(r) == old(At(r)).(free := At(r).free, allocTimes := WrapInt32(old(At(r)).allocTimes + 1))
    {
      RouteInTableIff(s);
      RouteBackIff(r);
      RouteInTableIff(ClassSize(r));
      var p := GetPool(r);
      p := p.(allocTimes := WrapInt32(p.allocTimes + 1));
      SetPool(r, p);
      if p.disabled {
        bf := Make(s);
        return;
      }
      bf := PoolGet(r, pick);
      bf := bf.(len := s);
    }

    /** sync.Pool.Get with its New function. */
    method PoolGet(r: Slot, pick: Option<Buf>) returns (bf: Buf)
      requires Valid() && InTable(r) && !InGap(ClassSize(r))
      modifies this, btPool, kbPool, mbPool
      ensures Valid() && bf.len == bf.cap == ClassSize(r)
      ensures bf.id !in old(place) || old(place)[bf.id] == In(r)
      ensures place == old(place)[bf.id := Out(bf.cap)]
      ensures forall q :: InTable(q) && q != r ==> At(q) == old(At(q))
      ensures At(r) == old(At(r)).(free := At(r).free)
      ensures if pick.Some? && pick.value in old(At(r)).free then bf == pick.value && At(r).free == old(At(r)).free - {bf}
              else bf.id !in old(place) && At(r).free == old(At(r)).free
    {
      var p := GetPool(r);
      if pick.Some? && pick.value in p.free {
        SetPool(r, p.(free := p.free - {pick.value}));
        bf := pick.value;
        place := place[bf.id := Out(bf.cap)];
      } else {
        bf := Make(p.size);
      }
    }

    /** An allocation, or the index panic of the source. */
    method BMalloc(s: int, pick: Option<Buf>) returns (r: Option<Buf>)
      requires Valid()
      modifies this, btPool, kbPool, mbPool
      ensures Valid()
      ensures r == None <==> s >= 1 && InGap(s)
      ensures r == None ==> place == old(place)
      ensures r.Some? ==>
                && r.value.len == (if s < 1 then 0 else s) <= r.value.cap
                && (r.value.id in old(place) ==> s >= 1 && old(place)[r.value.id] == In(Route(s)))
                && place == old(place)[r.value.id := Out(r.value.cap)]
      ensures forall q :: InTable(q) ==> Counted(old(At(q)), At(q), CountsFor(s, q))
      ensures r.Some? && s >= 1 && old(Finds(Route(s), pick)) ==>
                r.value == pick.value.(len := s) && At(Route(s)).free == old(At(Route(s))).free - {pick.value}
      ensures r.Some? && !(s >= 1 && old(Finds(Route(s), pick))) ==> r.value.id !in old(place)
      ensures r.Some? && s < 1 ==> r.value.cap == 0
      ensures r.Some? && s >= 1 ==>
                r.value.cap == if InTable(Route(s)) && !old(At(Route(s))).disabled then ClassSize(Route(s)) else s
      ensures r.Some? && s >= 1 && r.value.cap != s ==> r.value.cap == ClassSize(Route(s)) && Route(r.value.cap) == Route(s)
    {
      if s < 1 {
        var bf := Make(0);
        return Some(bf);
      }
      RouteInTableIff(s);
      var route := Route(s);
      if route == Unpooled {
        var bf := Make(s);
        return Some(bf);
      }
      if !InTable(route) {
        return None;
      }
      RouteFits(s);
      FirstMbClassUnused(s);
      RouteBackIff(route);
      var bf := Alloc(route, s, pick);
      return Some(bf);
    }

    /** A buffer given back, made by BMalloc or elsewhere, perhaps sliced since, but in no pool; the
        answer is whether the source indexes within bounds.  For what BMalloc handed out that
        fails exactly for the empty buffer. */
    method BFree(bf: Buf) returns (ok: bool)
      requires Valid() && (bf.id in place ==> place[bf.id].Out?) && bf.len <= bf.cap
      modifies this, btPool, kbPool, mbPool
      ensures Valid()
      ensures ok <==> bf.cap != 0 && !InGap(bf.cap)
      ensures bf.id in old(place) && old(place)[bf.id] == Out(bf.cap) ==> (ok <==> bf.cap != 0)
      ensures !ok ==> place == old(place)
      ensures forall q :: InTable(q) ==> Counted(old(At(q)), At(q), false)
      ensures ok ==> forall q :: InTable(q) && q != Route(bf.cap) ==> At(q) == old(At(q))
      ensures ok ==>
                if InTable(Route(bf.cap)) && bf.cap == ClassSize(Route(bf.cap))
                then place == old(place)[bf.id := In(Route(bf.cap))]
                     && At(Route(bf.cap)).free == old(At(Route(bf.cap))).free + {bf.(len := bf.cap)}
                else place == old(place) - {bf.id}
    {
      var s := bf.cap;
      RouteInTableIff(s);
      var r := Route(s);
      if r == Unpooled {
        place := place - {bf.id};
        return true;
      }
      if !InTable(r) {
        return false;
      }
      var p := GetPool(r);
      if s == p.size {
        PoolPut(r, bf.(len := s));
      } else {
        place := place - {bf.id};
      }
      return true;
    }

    /** sync.Pool.Put. */
    method PoolPut(r: Slot, bf: Buf)
      requires Valid() && InTable(r) && bf.len == bf.cap == ClassSize(r) && (bf.id in place ==> place[bf.id].Out?)
      modifies this, btPool, kbPool, mbPool
      ensures Valid() && place == old(place)[bf.id := In(r)]
      ensures At(r) == old(At(r)).(free := old(At(r)).free + {bf})
      ensures forall q :: InTable(q) && q != r ==> At(q) == old(At(q))
    {
      ghost var before := place;
      nextId := if bf.id < nextId then nextId else bf.id + 1;
      place := place[bf.id := In(r)];
      var p := GetPool(r);
      forall q | InTable(q) ensures PoolOk(At(q), q, place) {
        assert PoolOk(At(q), q, before);
      }
      SetPool(r, p.(free := p.free + {bf}));
    }

    /** buffPoolAdjust: every pool of every table. */
    method BuffPoolAdjust()
      requires Valid()
      modifies btPool, kbPool, mbPool
      ensures Valid()
      ensures forall r :: InTable(r) ==> At(r) == Adjusted(old(At(r)))
    {
      AdjustTable(btPool);
      AdjustTable(kbPool);
      AdjustTable(mbPool);
      forall r | InTable(r) ensures At(r) == Adjusted(old(At(r))) && PoolOk(At(r), r, place) {
        assert PoolOk(old(At(r)), r, place);
      }
    }

    static method AdjustTable(pools: array<Pool>)
      modifies pools
      ensures forall i :: 0 <= i < pools.Length ==> pools[i] == Adjusted(old(pools[i]))
    {
      for i := 0 to pools.Length
        invariant forall j :: 0 <= j < pools.Length ==> pools[j] == if j < i then Adjusted(old(pools[j])) else old(pools[j])
      {
        pools[i] := Adjusted(pools[i]);
      }
    }

    /** A period: any requests between one adjustment and the next, which switches off exactly the
        pools whose 32-bit count of them is below five. */
    method Period(sizes: seq<int>, picks: seq<Option<Buf>>)
      requires Valid() && |picks| == |sizes| && forall q :: InTable(q) ==> At(q).allocTimes == 0
      modifies this, btPool, kbPool, mbPool
      ensures Valid() && forall q :: InTable(q) ==> At(q).allocTimes == 0
      ensures forall q :: InTable(q) ==> (At(q).disabled <==> WrapInt32(Requests(sizes, q)) < ACTIVE_TIMES)
    {
      for i := 0 to |sizes|
        invariant Valid()
        invariant forall q :: InTable(q) ==> At(q).allocTimes == WrapInt32(Requests(sizes[..i], q))
      {
        var _ := BMalloc(sizes[i], picks[i]);
        forall q | InTable(q) ensures At(q).allocTimes == WrapInt32(Requests(sizes[..i + 1], q)) {
          RequestsNext(sizes, i, q);
        }
      }
      assert sizes[..|sizes|] == sizes;
      BuffPoolAdjust();
    }

    /** The garbage collector may drop a pooled buffer at any time. */
    method Evict(r: Slot, bf: Buf)
      requires Valid() && InTable(r) && bf in At(r).free
      modifies this, btPool, kbPool, mbPool
      ensures Valid() && place == old(place) - {bf.id} && At(r).free == old(At(r)).free - {bf}
    {
      var p := GetPool(r);
      SetPool(r, p.(free := p.free - {bf}));
      place := place - {bf.id};
    }
  }
}
