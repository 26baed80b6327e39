/** Interest masks (ev_handler.go:12-36), the store that keeps them (ev_data.go), and the
    bookkeeping of `evPoll.add`, `remove` and `append` around epoll_ctl (epoll.go:51-119). */
module Interest {
  import opened Basics

  type Mask = bv32

  const EPOLLIN: Mask := 0x1
  const EPOLLOUT: Mask := 0x4
  const EPOLLRDHUP: Mask := 0x2000
  const EPOLLET: Mask := 0x8000_0000

  const EV_IN: Mask := EPOLLIN | EPOLLRDHUP
  const EV_OUT: Mask := EPOLLOUT | EPOLLRDHUP
  const EV_ALL: Mask := EV_IN | EV_OUT | EPOLLET

  predicate Has(m: Mask, bit: Mask) { m & bit == bit }

  predicate NoneSet(m: Mask, events: Mask) { m & events == 0 }

  function With(m: Mask, events: Mask): Mask { m | events }

  function Without(m: Mask, events: Mask): Mask { m & !events }

  /** Waiting for writability never loses the interest in reading. */
  lemma ReadingSurvives(m: Mask)
    requires Has(m, EPOLLIN)
    ensures Has(With(m, EV_OUT), EPOLLIN) && Has(With(m, EV_OUT), EPOLLOUT)
    ensures Has(Without(m, EV_OUT), EPOLLIN) && !Has(Without(m, EV_OUT), EPOLLOUT)
    ensures Without(m, EV_OUT) != 0
  {
  }

  /** EvIn and EvOut share EPOLLRDHUP, so waiting for writability sets it and ending it clears it. */
  lemma RdhupIsShared(m: Mask)
    ensures Has(EV_IN, EPOLLRDHUP)
    ensures Has(With(m, EV_OUT), EPOLLRDHUP)
    ensures !Has(Without(m, EV_OUT), EPOLLRDHUP)
  {
  }

  /** Undoing a failed `append` restores the mask exactly when none of the events was set. */
  lemma AppendRollbackIff(m: Mask, events: Mask)
    ensures Without(With(m, events), events) == m <==> NoneSet(m, events)
  {
  }

  /** Undoing a failed `remove` restores the mask exactly when all of the events were set. */
  lemma RemoveRollbackIff(m: Mask, events: Mask)
    ensures With(Without(m, events), events) == m <==> Has(m, events)
  {
    WithIsOr(m, events);
    if Has(m, events) {
      HasOr(m, events);
    } else if m | events == m {
      OrHas(m, events);
    }
  }

  lemma WithIsOr(m: Mask, events: Mask)
    ensures (m & !events) | events == m | events
  {
  }

  lemma HasOr(m: Mask, events: Mask)
    requires m & events == events
    ensures m | events == m
  {
  }

  lemma OrHas(m: Mask, events: Mask)
    requires m | events == m
    ensures m & events == events
  {
  }

  // ----- The masks, bit by bit -----

  /** `b` is a single bit. */
  predicate OneBit(b: Mask) { b != 0 && b & (b - 1) == 0 }

  predicate On(m: Mask, b: Mask) { m & b != 0 }

  lemma BitInOrOut(m: Mask, b: Mask)
    requires b != 0 && b & (b - 1) == 0
    ensures m & b == 0 || m & b == b
  {
  }

  lemma OrMeets(m: Mask, events: Mask, b: Mask)
    ensures (m | events) & b == (m & b) | (events & b)
  {
  }

  lemma ClearMeets(m: Mask, events: Mask, b: Mask)
    ensures (m & !events) & b == (m & b) & !(events & b)
  {
  }

  lemma OrOn(m: Mask, events: Mask, b: Mask)
    requires b != 0 && b & (b - 1) == 0
    ensures (m | events) & b != 0 <==> m & b != 0 || events & b != 0
  {
    OrMeets(m, events, b);
    BitInOrOut(m, b);
    BitInOrOut(events, b);
  }

  lemma ClearOn(m: Mask, events: Mask, b: Mask)
    requires b != 0 && b & (b - 1) == 0
    ensures (m & !events) & b != 0 <==> m & b != 0 && events & b == 0
  {
    ClearMeets(m, events, b);
    BitInOrOut(m, b);
    BitInOrOut(events, b);
  }

  lemma WithOn(m: Mask, events: Mask, b: Mask)
    requires OneBit(b)
    ensures On(With(m, events), b) <==> On(m, b) || On(events, b)
  {
    OrOn(m, events, b);
  }

  lemma WithoutOn(m: Mask, events: Mask, b: Mask)
    requires OneBit(b)
    ensures On(Without(m, events), b) <==> On(m, b) && !On(events, b)
  {
    ClearOn(m, events, b);
  }

  /** Exactly the bits of either mask are set in `x`. */
  ghost predicate Union(x: Mask, m: Mask, events: Mask) {
    forall b :: OneBit(b) ==> (On(x, b) <==> On(m, b) || On(events, b))
  }

  /** Exactly those bits of `m` are set in `x` that are not set in `events`. */
  ghost predicate Difference(x: Mask, m: Mask, events: Mask) {
    forall b :: OneBit(b) ==> (On(x, b) <==> On(m, b) && !On(events, b))
  }

  lemma WithIsUnion(m: Mask, events: Mask)
    ensures Union(With(m, events), m, events)
  {
    forall b | OneBit(b) ensures On(With(m, events), b) <==> On(m, b) || On(events, b) {
      WithOn(m, events, b);
    }
  }

  lemma WithoutIsDifference(m: Mask, events: Mask)
    ensures Difference(Without(m, events), m, events)
  {
    forall b | OneBit(b) ensures On(Without(m, events), b) <==> On(m, b) && !On(events, b) {
      WithoutOn(m, events, b);
    }
  }

  /** Taking the events away again, or putting them back. */
  lemma TakenBack(joined: Mask, m: Mask, events: Mask)
    requires Union(joined, m, events)
    ensures Difference(Without(joined, events), m, events)
  {
    forall b | OneBit(b) ensures On(Without(joined, events), b) <==> On(m, b) && !On(events, b) {
      WithoutOn(joined, events, b);
    }
  }

  lemma PutBack(left: Mask, m: Mask, events: Mask)
    requires Difference(left, m, events)
    ensures Union(With(left, events), m, events)
  {
    forall b | OneBit(b) ensures On(With(left, events), b) <==> On(m, b) || On(events, b) {
      WithOn(left, events, b);
    }
  }

  // ----- Store and kernel, for one descriptor -----

  /** What the store says of a registered descriptor. */
  datatype Entry = Entry(events: Mask, eh: Option<nat>)

  /** A descriptor as the store has it, and as the kernel watches it. */
  datatype Watch = Watch(stored: Option<Entry>, kernel: Option<Mask>)

  /** The kernel watches exactly what is stored. */
  predicate InStep(w: Watch) {
    match w.stored
    case Some(e) => w.kernel == Some(e.events)
    case None => w.kernel == None
  }

  /** A first registration; the record stays whatever epoll_ctl answers. */
  function AfterAdd(w: Watch, events: Mask, eh: nat, ctlOk: bool): Watch {
    Watch(Some(Entry(events, Some(eh))), if ctlOk then Some(events) else w.kernel)
  }

  /** A change of the mask to `m`, undone to `undo` when epoll_ctl fails. */
  function AfterMod(w: Watch, m: Mask, undo: Mask, ctlOk: bool): Watch
    requires w.stored.Some?
  {
    var e := w.stored.value;
    if ctlOk then Watch(Some(e.(events := m)), Some(m)) else w.(stored := Some(e.(events := undo)))
  }

  /** The record goes whatever epoll_ctl answers. */
  function AfterDel(w: Watch, ctlOk: bool): Watch {
    Watch(None, if ctlOk then None else w.kernel)
  }

  function AfterAppend(w: Watch, events: Mask, ctlOk: bool): Watch {
    if w.stored.None? then w
    else
      var m := With(w.stored.value.events, events);
      AfterMod(w, m, Without(m, events), ctlOk)
  }

  /** The events leave something of the mask `m`, so that the descriptor stays registered. */
  predicate Keeps(m: Mask, events: Mask) { events != EV_ALL && Without(m, events) != 0 }

  function AfterRemove(w: Watch, events: Mask, ctlOk: bool): Watch {
    if events == EV_ALL then AfterDel(w, ctlOk)
    else if w.stored.None? then w
    else if !Keeps(w.stored.value.events, events) then AfterDel(w, ctlOk)
    else
      var m := Without(w.stored.value.events, events);
      AfterMod(w, m, With(m, events), ctlOk)
  }

  /** A failed registration leaves store and kernel apart, unless the kernel watched those events
      already. */
  lemma AddInStepIff(w: Watch, events: Mask, eh: nat, ctlOk: bool)
    requires InStep(w)
    ensures InStep(AfterAdd(w, events, eh, ctlOk))
            <==> ctlOk || (w.stored.Some? && w.stored.value.events == events)
  {
  }

  lemma ModInStepIff(w: Watch, m: Mask, undo: Mask, ctlOk: bool)
    requires InStep(w) && w.stored.Some?
    ensures InStep(AfterMod(w, m, undo, ctlOk)) <==> ctlOk || undo == w.stored.value.events
  {
  }

  /** So does a failed `append`, unless none of the events was set. */
  lemma AppendInStepIff(w: Watch, events: Mask, ctlOk: bool)
    requires InStep(w)
    ensures InStep(AfterAppend(w, events, ctlOk))
            <==> ctlOk || w.stored.None? || NoneSet(w.stored.value.events, events)
  {
    if w.stored.Some? {
      var m := w.stored.value.events;
      AppendRollbackIff(m, events);
      ModInStepIff(w, With(m, events), Without(With(m, events), events), ctlOk);
    }
  }

  /** So does a failed `remove`, unless it keeps the descriptor and all of the events were set: one
      that unregisters the descriptor leaves the kernel watching it. */
  lemma RemoveInStepIff(w: Watch, events: Mask, ctlOk: bool)
    requires InStep(w)
    ensures InStep(AfterRemove(w, events, ctlOk))
            <==> ctlOk || w.stored.None?
                 || (Keeps(w.stored.value.events, events) && Has(w.stored.value.events, events))
  {
    if w.stored.Some? && Keeps(w.stored.value.events, events) {
      var m := w.stored.value.events;
      RemoveRollbackIff(m, events);
      ModInStepIff(w, Without(m, events), With(Without(m, events), events), ctlOk);
    }
  }

  /** A registration asks for the given events and no others, in the store and, if epoll_ctl takes
      it, in the kernel. */
  lemma AddedBits(w: Watch, events: Mask, eh: nat, ctlOk: bool)
    ensures var w' := AfterAdd(w, events, eh, ctlOk);
            && w'.stored == Some(Entry(events, Some(eh)))
            && w'.kernel == if ctlOk then Some(events) else w.kernel
  {
  }

  /** The store has the mask `m`, and the handler it had; the kernel watches that if epoll_ctl took the
      change, and is left alone otherwise. */
  predicate Outcome(w: Watch, w': Watch, m: Mask, ctlOk: bool) {
    && w.stored.Some? && w'.stored == Some(w.stored.value.(events := m))
    && w'.kernel == if ctlOk then Some(m) else w.kernel
  }

  /** After an append exactly the bits set before or named are set, in store and kernel; after a
      failed one the store has those set before and not named. */
  lemma AppendedBits(w: Watch, events: Mask, ctlOk: bool) returns (m': Mask)
    requires w.stored.Some?
    ensures Outcome(w, AfterAppend(w, events, ctlOk), m', ctlOk)
    ensures if ctlOk then Union(m', w.stored.value.events, events) else Difference(m', w.stored.value.events, events)
  {
    var m := w.stored.value.events;
    WithIsUnion(m, events);
    if ctlOk {
      m' := With(m, events);
    } else {
      m' := Without(With(m, events), events);
      TakenBack(With(m, events), m, events);
    }
  }

  /** After a remove that leaves something, exactly the bits set before and not named are set, in
      store and kernel; after a failed one the store has those set before or named. */
  lemma RemovedBits(w: Watch, events: Mask, ctlOk: bool) returns (m': Mask)
    requires w.stored.Some? && events != EV_ALL && Without(w.stored.value.events, events) != 0
    ensures Outcome(w, AfterRemove(w, events, ctlOk), m', ctlOk)
    ensures if ctlOk then Difference(m', w.stored.value.events, events) else Union(m', w.stored.value.events, events)
  {
    var m := w.stored.value.events;
    RemoveCases(w, events, ctlOk);
    WithoutIsDifference(m, events);
    if ctlOk {
      m' := Without(m, events);
    } else {
      m' := With(Without(m, events), events);
      PutBack(Without(m, events), m, events);
    }
  }

  lemma RemoveCases(w: Watch, events: Mask, ctlOk: bool)
    requires w.stored.Some? && events != EV_ALL
    ensures var m := w.stored.value.events;
            AfterRemove(w, events, ctlOk)
            == if Without(m, events) == 0 then AfterDel(w, ctlOk)
               else AfterMod(w, Without(m, events), With(Without(m, events), events), ctlOk)
  {
  }

  /** One that names everything there is, or EvAll, unregisters, and ends the kernel's watch if
      epoll_ctl takes it; on an unregistered descriptor any other does nothing. */
  lemma RemovedAll(w: Watch, events: Mask, ctlOk: bool)
    ensures events == EPOLLIN | EPOLLOUT | EPOLLRDHUP | EPOLLET || (w.stored.Some? && w.stored.value.events & !events == 0)
            ==> AfterRemove(w, events, ctlOk) == Watch(None, if ctlOk then None else w.kernel)
    ensures events != EPOLLIN | EPOLLOUT | EPOLLRDHUP | EPOLLET && w.stored.None? ==> AfterRemove(w, events, ctlOk) == w
  {
    AllEvents();
  }

  lemma AllEvents()
    ensures EV_ALL == EPOLLIN | EPOLLOUT | EPOLLRDHUP | EPOLLET == 0x8000_2005
    ensures EV_IN == 0x2001 && EV_OUT == 0x2004
  {
  }

  /** One failing case each: a registration leaves a record of what the kernel does not watch, an
      append of EvOut takes EPOLLRDHUP out of the store, a remove of all that is set leaves the
      kernel watching an unregistered descriptor. */
  lemma FailedCallsDisagree(eh: nat)
    ensures AfterAdd(Watch(None, None), EV_IN, eh, false) == Watch(Some(Entry(EV_IN, Some(eh))), None)
    ensures AfterAppend(Watch(Some(Entry(EV_IN, Some(eh))), Some(EV_IN)), EV_OUT, false)
            == Watch(Some(Entry(EPOLLIN, Some(eh))), Some(EV_IN))
    ensures AfterRemove(Watch(Some(Entry(EV_IN, Some(eh))), Some(EV_IN)), EV_IN, false) == Watch(None, Some(EV_IN))
  {
    EvInOut();
  }

  lemma EvInOut()
    ensures Without(With(EV_IN, EV_OUT), EV_OUT) == EPOLLIN && Without(EV_IN, EV_IN) == 0 && EV_IN != EV_ALL
  {
  }

  // ----- ev_data.go -----

  class EvData {
    var events: Mask
    var fd: int
    var eh: Option<nat>

    constructor ()
      ensures events == 0 && fd == 0 && eh == None
    {
      events, fd, eh := 0, 0, None;
    }
  }

  /** Descriptors below `arrSize` have a slot each; the others are kept in a map. */
  class EvDataMap {
    const arrSize: nat
    const arr: seq<EvData>
    var sMap: map<int, EvData>
    ghost var others: set<EvData>

    constructor (arr: seq<EvData>)
      requires forall i, j :: 0 <= i < j < |arr| ==> arr[i] != arr[j]
      requires forall i :: 0 <= i < |arr| ==> arr[i].fd == 0
      ensures Valid() && arrSize == |arr| && Cells() == (set i | 0 <= i < |arr| :: arr[i])
      ensures forall i: nat :: Lookup(i) == None && Free(i)
    {
      arrSize, this.arr, sMap, others := |arr|, arr, map[], {};
    }

    ghost predicate Valid()
      reads this
    {
      && |arr| == arrSize
      && (forall i, j :: 0 <= i < j < |arr| ==> arr[i] != arr[j])
      && (forall i :: 0 <= i < |arr| ==> arr[i] !in others)
      && (forall k :: k in sMap ==> k >= arrSize && sMap[k] in others)
      && (forall k, l :: k in sMap && l in sMap && sMap[k] == sMap[l] ==> k == l)
    }

    ghost function Cells(): set<EvData>
      reads this
    {
      (set i | 0 <= i < |arr| :: arr[i]) + others
    }

    /** The record of descriptor `i`, registered or not; null if it has none. */
    ghost function Cell(i: nat): (c: EvData?)
      requires Valid()
      reads this
      ensures c != null ==> c in Cells()
    {
      if i < arrSize then arr[i] else if i in sMap then sMap[i] else null
    }

    /** What is stored for descriptor `i`. */
    ghost function Lookup(i: nat): Option<Entry>
      requires Valid()
      reads this, Cells()
    {
      var c := Cell(i);
      if c == null || (i < arrSize && c.fd < 1) then None else Some(Entry(c.events, c.eh))
    }

    /** Slot `i` is free for a new registration; in use, `newOne` panics. */
    ghost predicate Free(i: nat)
      requires Valid()
      reads this, Cells()
    {
      i < arrSize ==> arr[i].fd <= 0
    }

    /** Records of distinct descriptors are distinct. */
    lemma CellsApart(i: nat, j: nat)
      requires Valid() && i != j && Cell(i) != null
      ensures Cell(i) != Cell(j)
    {
    }

    method NewOne(i: nat) returns (p: EvData)
      requires Valid() && Free(i)
      ensures Valid() && unchanged(this) && (i < arrSize ==> p == arr[i]) && (i >= arrSize ==> fresh(p))
    {
      if i < arrSize {
        p := arr[i];
      } else {
        p := new EvData();
      }
    }

    method Load(i: nat) returns (p: EvData?)
      requires Valid()
      ensures p != null <==> Lookup(i).Some?
      ensures p != null ==> p == Cell(i)
    {
      if i < arrSize {
        p := arr[i];
        if p.fd < 1 {
          return null;
        }
        return p;
      }
      if i in sMap {
        return sMap[i];
      }
      return null;
    }

    method Store(i: nat, v: EvData)
      requires Valid()
      requires i < arrSize ==> v == arr[i]
      requires i >= arrSize ==> v !in Cells()
      modifies this
      ensures Valid() && Cell(i) == v && Cells() == old(Cells()) + {v}
      ensures forall j: nat :: j != i ==> Cell(j) == old(Cell(j))
    {
      if i < arrSize {
        assert Cells() == Cells() + {v};
        return;
      }
      sMap := sMap[i := v];
      others := others + {v};
    }

    method Del(i: nat)
      requires Valid()
      modifies this, Cell(i)
      ensures Valid() && Cells() == old(Cells()) && Lookup(i) == None && Free(i)
      ensures forall j: nat :: j != i ==> Lookup(j) == old(Lookup(j))
    {
      if i < arrSize {
        var p := arr[i];
        p.events := 0;
        p.fd := -1;
        p.eh := None;
        forall j: nat | j != i ensures Lookup(j) == old(Lookup(j)) {
          if old(Cell(j)) != null {
            CellsApart(i, j);
          }
        }
        return;
      }
      sMap := map k | k in sMap && k != i :: sMap[k];
    }
  }

  // ----- epoll.go -----

  /** `ctlOk` is the answer of epoll_ctl; `kernel` is what the kernel watches. */
  class EvPoll {
    const evHandlerMap: EvDataMap
    ghost var kernel: map<nat, Mask>

    constructor (evHandlerMap: EvDataMap)
      ensures this.evHandlerMap == evHandlerMap && kernel == map[]
    {
      this.evHandlerMap := evHandlerMap;
      kernel := map[];
    }

    ghost predicate Valid()
      reads this, evHandlerMap
    {
      evHandlerMap.Valid()
    }

    ghost function Footprint(): set<object>
      reads this, evHandlerMap
    {
      {this, evHandlerMap} + evHandlerMap.Cells()
    }

    ghost function Watched(fd: nat): Watch
      requires Valid()
      reads this, evHandlerMap, evHandlerMap.Cells()
    {
      Watch(evHandlerMap.Lookup(fd), if fd in kernel then Some(kernel[fd]) else None)
    }

    ghost function Lookup(fd: nat): Option<Entry>
      requires Valid()
      reads this, evHandlerMap, evHandlerMap.Cells()
    {
      Watched(fd).stored
    }

    /** The store and the kernel agree about `fd`. */
    ghost predicate Agree(fd: nat)
      requires Valid()
      reads this, evHandlerMap, evHandlerMap.Cells()
    {
      InStep(Watched(fd))
    }

    /** First registration.  There is no undoing here: when epoll_ctl fails the record stays. */
    method Add(fd: nat, events: Mask, eh: nat, ctlOk: bool) returns (ok: bool)
      requires Valid() && fd > 0 && evHandlerMap.Free(fd)
      modifies Footprint()
      ensures Valid() && fresh(Footprint() - old(Footprint())) && ok == ctlOk
      ensures Watched(fd) == AfterAdd(old(Watched(fd)), events, eh, ctlOk)
      ensures forall j: nat :: j != fd ==> Watched(j) == old(Watched(j))
      ensures old(Agree(fd)) ==>
                (Agree(fd) <==> ctlOk || (old(Lookup(fd)).Some? && old(Lookup(fd)).value.events == events))
    {
      ghost var w := Watched(fd);
      Enter(fd, events, eh);
      if ctlOk {
        kernel := kernel[fd := events];
      }
      forall j: nat | j != fd ensures Watched(j) == old(Watched(j)) {
        assert Lookup(j) == old(Lookup(j));
      }
      if InStep(w) {
        AddInStepIff(w, events, eh, ctlOk);
      }
      return ctlOk;
    }

    /** The record of a new registration. */
    method Enter(fd: nat, events: Mask, eh: nat)
      requires Valid() && fd > 0 && evHandlerMap.Free(fd)
      modifies Footprint()
      ensures Valid() && fresh(Footprint() - old(Footprint())) && kernel == old(kernel)
      ensures Lookup(fd) == Some(Entry(events, Some(eh)))
      ensures forall j: nat :: j != fd ==> Lookup(j) == old(Lookup(j))
    {
      var ed := evHandlerMap.NewOne(fd);
      ed.fd := fd;
      ed.events := events;
      ed.eh := Some(eh);
      evHandlerMap.Store(fd, ed);
      forall j: nat | j != fd ensures Lookup(j) == old(Lookup(j)) {
        if evHandlerMap.Cell(j) != null {
          evHandlerMap.CellsApart(j, fd);
        }
      }
    }

    /** Writes the mask of a registered descriptor. */
    method SetEvents(fd: nat, ed: EvData, m: Mask)
      requires Valid() && evHandlerMap.Cell(fd) == ed && Lookup(fd).Some?
      modifies ed
      ensures Valid() && evHandlerMap.Cell(fd) == ed
      ensures Lookup(fd) == Some(old(Lookup(fd)).value.(events := m))
      ensures forall j: nat :: j != fd ==> Lookup(j) == old(Lookup(j))
    {
      ed.events := m;
      forall j: nat | j != fd ensures Lookup(j) == old(Lookup(j)) {
        if evHandlerMap.Cell(j) != null {
          evHandlerMap.CellsApart(j, fd);
        }
      }
    }

    /** Saves the mask `m` first and undoes to `undo` if epoll_ctl fails. */
    method Modify(fd: nat, ed: EvData, m: Mask, undo: Mask, ctlOk: bool)
      requires Valid() && evHandlerMap.Cell(fd) == ed && Lookup(fd).Some?
      modifies this, ed
      ensures Valid() && Footprint() == old(Footprint())
      ensures Watched(fd) == AfterMod(old(Watched(fd)), m, undo, ctlOk)
      ensures forall j: nat :: j != fd ==> Watched(j) == old(Watched(j))
    {
      SetEvents(fd, ed, m);
      if ctlOk {
        kernel := kernel[fd := m];
      } else {
        SetEvents(fd, ed, undo);
      }
    }

    method Append(fd: nat, events: Mask, ctlOk: bool) returns (ok: bool)
      requires Valid()
      modifies Footprint()
      ensures Valid() && fresh(Footprint() - old(Footprint()))
      ensures ok <==> old(Lookup(fd)).Some? && ctlOk
      ensures Watched(fd) == AfterAppend(old(Watched(fd)), events, ctlOk)
      ensures forall j: nat :: j != fd ==> Watched(j) == old(Watched(j))
      ensures old(Agree(fd)) ==>
                (Agree(fd) <==> ctlOk || old(Lookup(fd)).None? || NoneSet(old(Lookup(fd)).value.events, events))
    {
      ghost var w := Watched(fd);
      ok := AppendEvents(fd, events, ctlOk);
      if InStep(w) {
        AppendInStepIff(w, events, ctlOk);
      }
    }

    method AppendEvents(fd: nat, events: Mask, ctlOk: bool) returns (ok: bool)
      requires Valid()
      modifies Footprint()
      ensures Valid() && Footprint() == old(Footprint())
      ensures ok <==> old(Lookup(fd)).Some? && ctlOk
      ensures Watched(fd) == AfterAppend(old(Watched(fd)), events, ctlOk)
      ensures forall j: nat :: j != fd ==> Watched(j) == old(Watched(j))
    {
      var ed := evHandlerMap.Load(fd);
      if ed == null {
        return false;
      }
      ghost var w := Watched(fd);
      assert w.stored.value.events == ed.events;
      var m := With(ed.events, events);
      assert AfterAppend(w, events, ctlOk) == AfterMod(w, m, Without(m, events), ctlOk);
      Modify(fd, ed, m, Without(m, events), ctlOk);
      return ctlOk;
    }

    method Unregister(fd: nat, ctlOk: bool)
      requires Valid()
      modifies Footprint()
      ensures Valid() && Footprint() == old(Footprint())
      ensures Watched(fd) == AfterDel(old(Watched(fd)), ctlOk)
      ensures forall j: nat :: j != fd ==> Watched(j) == old(Watched(j))
    {
      evHandlerMap.Del(fd);
      if ctlOk {
        kernel := kernel - {fd};
      }
    }

    method Remove(fd: nat, events: Mask, ctlOk: bool) returns (ok: bool)
      requires Valid()
      modifies Footprint()
      ensures Valid() && fresh(Footprint() - old(Footprint()))
      ensures ok <==> (events == EV_ALL || old(Lookup(fd)).Some?) && ctlOk
      ensures Watched(fd) == AfterRemove(old(Watched(fd)), events, ctlOk)
      ensures forall j: nat :: j != fd ==> Watched(j) == old(Watched(j))
      ensures old(Agree(fd)) ==>
                (Agree(fd) <==> ctlOk || old(Lookup(fd)).None?
                                || (Keeps(old(Lookup(fd)).value.events, events)
                                    && Has(old(Lookup(fd)).value.events, events)))
    {
      ghost var w := Watched(fd);
      if events == EV_ALL {
        Unregister(fd, ctlOk);
        ok := ctlOk;
      } else {
        ok := RemoveSome(fd, events, ctlOk);
      }
      if InStep(w) {
        RemoveInStepIff(w, events, ctlOk);
      }
    }

    /** The part of `remove` for less than EvAll. */
    method RemoveSome(fd: nat, events: Mask, ctlOk: bool) returns (ok: bool)
      requires Valid() && events != EV_ALL
      modifies Footprint()
      ensures Valid() && Footprint() == old(Footprint())
      ensures ok <==> old(Lookup(fd)).Some? && ctlOk
      ensures Watched(fd) == AfterRemove(old(Watched(fd)), events, ctlOk)
      ensures forall j: nat :: j != fd ==> Watched(j) == old(Watched(j))
    {
      var ed := evHandlerMap.Load(fd);
      if ed == null {
        return false;
      }
      ghost var w := Watched(fd);
      RemoveCases(w, events, ctlOk);
      ok := RemoveFrom(fd, ed, events, ctlOk);
    }

    /** And for a registered descriptor. */
    method RemoveFrom(fd: nat, ed: EvData, events: Mask, ctlOk: bool) returns (ok: bool)
      requires Valid() && evHandlerMap.Cell(fd) == ed && Lookup(fd).Some?
      modifies Footprint()
      ensures Valid() && Footprint() == old(Footprint()) && ok == ctlOk
      ensures var w, m := old(Watched(fd)), Without(old(Lookup(fd)).value.events, events);
              Watched(fd) == if m == 0 then AfterDel(w, ctlOk) else AfterMod(w, m, With(m, events), ctlOk)
      ensures forall j: nat :: j != fd ==> Watched(j) == old(Watched(j))
    {
      var m := Without(ed.events, events);
      if m == 0 {
        Unregister(fd, ctlOk);
      } else {
        Modify(fd, ed, m, With(m, events), ctlOk);
      }
      ok := ctlOk;
    }
  }
}
