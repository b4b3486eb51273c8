/** swap_rust.rs: a cell that any number of handles share, with a mutex and a condition variable to wait on it.
    One step is one atomic action of one thread; memory is sequentially consistent. */
module WatchSwap {
  import opened Options

  type Value = nat

  /** `Option<Arc<T>>` as `RefCnt::as_ptr` sees it. */
  datatype Ptr = Null | At(addr: nat)

  /** A pointer and, for the sake of the proof, the number of the store that put it into the cell. */
  datatype Cell = Cell(ptr: Ptr, version: nat)

  /** A call of `swap`: the new Arc exists; stored; holding the mutex; notified; unlocked, and the caller has the
      old Arc. */
  datatype Swap =
    | Ready(ptr: Ptr, value: Option<Value>)
    | Stored(previous: Cell)
    | Notifying(previous: Cell)
    | Unlocking(previous: Cell)
    | Returned(previous: Cell)

  /** Where a handle is in `get_changed` or, if waiting, in `wait_for_change`. */
  datatype Pc =
    | Idle
    | Locked
    | Comparing(guard: Cell, waiting: bool)
    | AboutToWait
    | Asleep
    | Woken
    | Releasing

  datatype Handle = Handle(cached: Cell, pc: Pc)

  datatype Owner = Nobody | SwapOwner(id: nat) | HandleOwner(id: nat)

  datatype State = State(
    inner: Cell,
    history: seq<Option<Value>>,
    mem: map<nat, Value>,
    mutex: Owner,
    swaps: map<nat, Swap>,
    handles: map<nat, Handle>,
    nextId: nat)

  datatype Step =
    | BeginSwap(value: Option<Value>, addr: nat)
    | Store(id: nat)
    | LockToWake(id: nat)
    | NotifyAll(id: nat)
    | UnlockAfterNotify(id: nat)
    | DropOld(id: nat)
    | BeginWait(id: nat)
    | Load(id: nat)
    | Compare(id: nat)
    | Sleep(id: nat)
    | WakeSpuriously(id: nat)
    | Relock(id: nat)
    | Release(id: nat)
    | CloneHandle(id: nat)
    | DropHandle(id: nat)
    | Reclaim(addr: nat)

  // ---- Holders ----

  predicate HandleHolds(h: Handle, c: Cell) {
    h.cached == c || (h.pc.Comparing? && h.pc.guard == c)
  }

  predicate SwapHolds(p: Swap, c: Cell) {
    !p.Ready? && p.previous == c
  }

  ghost predicate Holds(s: State, c: Cell) {
    || c == s.inner
    || (exists h | h in s.handles :: HandleHolds(s.handles[h], c))
    || (exists o | o in s.swaps :: SwapHolds(s.swaps[o], c))
  }

  /** Some Arc to this address is left. */
  ghost predicate InUse(s: State, addr: nat) {
    || (exists c :: Holds(s, c) && c.ptr == At(addr))
    || (exists o | o in s.swaps :: s.swaps[o].Ready? && s.swaps[o].ptr == At(addr))
  }

  // ---- Steps ----

  predicate AtPc(s: State, id: nat, pc: Pc) {
    id in s.handles && s.handles[id].pc == pc
  }

  ghost predicate Enabled(s: State, step: Step) {
    match step
    case BeginSwap(value, addr) => value.Some? ==> addr !in s.mem
    case Store(id) => id in s.swaps && s.swaps[id].Ready?
    case LockToWake(id) => id in s.swaps && s.swaps[id].Stored? && s.mutex == Nobody
    case NotifyAll(id) => id in s.swaps && s.swaps[id].Notifying?
    case UnlockAfterNotify(id) => id in s.swaps && s.swaps[id].Unlocking?
    case DropOld(id) => id in s.swaps && s.swaps[id].Returned?
    case BeginWait(id) => AtPc(s, id, Idle) && s.mutex == Nobody
    case Load(id) => AtPc(s, id, Idle) || AtPc(s, id, Locked)
    case Compare(id) => id in s.handles && s.handles[id].pc.Comparing?
    case Sleep(id) => AtPc(s, id, AboutToWait)
    case WakeSpuriously(id) => AtPc(s, id, Asleep)
    case Relock(id) => AtPc(s, id, Woken) && s.mutex == Nobody
    case Release(id) => AtPc(s, id, Releasing)
    case CloneHandle(id) => AtPc(s, id, Idle)
    case DropHandle(id) => AtPc(s, id, Idle)
    case Reclaim(addr) => addr in s.mem && !InUse(s, addr)
  }

  function SetPc(s: State, id: nat, pc: Pc): State
    requires id in s.handles
  {
    s.(handles := s.handles[id := s.handles[id].(pc := pc)])
  }

  function SetSwap(s: State, id: nat, p: Swap): State {
    s.(swaps := s.swaps[id := p])
  }

  function WakeUp(h: Handle): Handle {
    if h.pc == Asleep then h.(pc := Woken) else h
  }

  /** The body of `get_changed_inner` after the load: compare the pointers, keep the guard if they differ. */
  function Compared(h: Handle): Handle
    requires h.pc.Comparing?
  {
    if h.cached.ptr != h.pc.guard.ptr then
      Handle(h.pc.guard, if h.pc.waiting then Releasing else Idle)
    else
      Handle(h.cached, if h.pc.waiting then AboutToWait else Idle)
  }

  ghost function Apply(s: State, step: Step): State
    requires Enabled(s, step)
  {
    match step
    case BeginSwap(value, addr) =>
      var ptr := if value.Some? then At(addr) else Null;
      var mem := if value.Some? then s.mem[addr := value.value] else s.mem;
      SetSwap(s, s.nextId, Ready(ptr, value)).(mem := mem, nextId := s.nextId + 1)
    case Store(id) =>
      SetSwap(s, id, Stored(s.inner)).(
        inner := Cell(s.swaps[id].ptr, |s.history|),
        history := s.history + [s.swaps[id].value])
    case LockToWake(id) => SetSwap(s, id, Notifying(s.swaps[id].previous)).(mutex := SwapOwner(id))
    case NotifyAll(id) =>
      SetSwap(s, id, Unlocking(s.swaps[id].previous)).(handles := map h | h in s.handles :: WakeUp(s.handles[h]))
    case UnlockAfterNotify(id) => SetSwap(s, id, Returned(s.swaps[id].previous)).(mutex := Nobody)
    case DropOld(id) => s.(swaps := s.swaps - {id})
    case BeginWait(id) => SetPc(s, id, Locked).(mutex := HandleOwner(id))
    case Load(id) => SetPc(s, id, Comparing(s.inner, s.handles[id].pc == Locked))
    case Compare(id) => s.(handles := s.handles[id := Compared(s.handles[id])])
    case Sleep(id) => SetPc(s, id, Asleep).(mutex := Nobody)
    case WakeSpuriously(id) => SetPc(s, id, Woken)
    case Relock(id) => SetPc(s, id, Locked).(mutex := HandleOwner(id))
    case Release(id) => SetPc(s, id, Idle).(mutex := Nobody)
    case CloneHandle(id) =>
      s.(handles := s.handles[s.nextId := Handle(s.handles[id].cached, Idle)], nextId := s.nextId + 1)
    case DropHandle(id) => s.(handles := s.handles - {id})
    case Reclaim(addr) => s.(mem := s.mem - {addr})
  }

  /** `init` and `empty`. */
  function Initial(value: Option<Value>, addr: nat): (r: State)
    ensures r.history == [value] && r.handles == map[0 := Handle(r.inner, Idle)] && r.inner.version == 0
    ensures Reads(r.mem, r.inner.ptr, value)
  {
    var cell := Cell(if value.Some? then At(addr) else Null, 0);
    State(cell, [value], if value.Some? then map[addr := value.value] else map[], Nobody, map[],
      map[0 := Handle(cell, Idle)], 1)
  }

  // ---- The invariant ----

  ghost predicate Ids(s: State) {
    && (forall h | h in s.handles :: h < s.nextId)
    && (forall o | o in s.swaps :: o < s.nextId)
  }

  /** Reading through the pointer gives the value. */
  predicate Reads(mem: map<nat, Value>, ptr: Ptr, value: Option<Value>) {
    match ptr
    case Null => value == None
    case At(a) => a in mem && value == Some(mem[a])
  }

  /** A held pointer still reads as what its store put into the cell. */
  predicate GoodCell(s: State, c: Cell) {
    c.version < |s.history| && Reads(s.mem, c.ptr, s.history[c.version])
  }

  /** Equal live pointers come from the same store, and one store has one pointer. */
  predicate Agree(c: Cell, d: Cell) {
    && (c.ptr.At? && c.ptr == d.ptr ==> c.version == d.version)
    && (c.version == d.version ==> c.ptr == d.ptr)
  }

  /** A new Arc that is not in the cell yet is known to its swap alone. */
  ghost predicate Unpublished(s: State, o: nat)
    requires o in s.swaps && s.swaps[o].Ready?
  {
    && Reads(s.mem, s.swaps[o].ptr, s.swaps[o].value)
    && (s.swaps[o].ptr.At? ==>
      && (forall c | Holds(s, c) :: c.ptr != s.swaps[o].ptr)
      && (forall p | p in s.swaps && p != o && s.swaps[p].Ready? :: s.swaps[p].ptr != s.swaps[o].ptr))
  }

  ghost predicate Memory(s: State) {
    && |s.history| > 0 && s.inner.version == |s.history| - 1
    && (forall c | Holds(s, c) :: GoodCell(s, c))
    && (forall c, d | Holds(s, c) && Holds(s, d) :: Agree(c, d))
    && (forall o | o in s.swaps && s.swaps[o].Ready? :: Unpublished(s, o))
  }

  predicate InOrder(h: Handle) {
    h.pc.Comparing? ==> h.cached.version <= h.pc.guard.version
  }

  predicate HasLock(pc: Pc) {
    pc.Locked? || pc.AboutToWait? || pc.Releasing? || (pc.Comparing? && pc.waiting)
  }

  predicate SwapHasLock(p: Swap) {
    p.Notifying? || p.Unlocking?
  }

  ghost predicate HandleLocks(s: State) {
    && (forall h | h in s.handles :: HasLock(s.handles[h].pc) <==> s.mutex == HandleOwner(h))
    && (s.mutex.HandleOwner? ==> s.mutex.id in s.handles)
  }

  ghost predicate SwapLocks(s: State) {
    && (forall o | o in s.swaps :: SwapHasLock(s.swaps[o]) <==> s.mutex == SwapOwner(o))
    && (s.mutex.SwapOwner? ==> s.mutex.id in s.swaps)
  }

  ghost predicate Locks(s: State) {
    HandleLocks(s) && SwapLocks(s)
  }

  predicate MustNotify(p: Swap) {
    p.Stored? || p.Notifying?
  }

  /** Some swap has stored and not notified yet. */
  ghost predicate Pending(s: State) {
    exists o | o in s.swaps :: MustNotify(s.swaps[o])
  }

  /** The handle sleeps or is going to sleep although the cell holds another pointer. */
  predicate Oversleeps(h: Handle, inner: Cell) {
    || ((h.pc.Asleep? || h.pc.AboutToWait?) && h.cached.ptr != inner.ptr)
    || (h.pc.Comparing? && h.pc.waiting && h.pc.guard.ptr != inner.ptr)
  }

  ghost predicate NoLostWakeUp(s: State) {
    forall h | h in s.handles && Oversleeps(s.handles[h], s.inner) :: Pending(s)
  }

  ghost predicate Inv(s: State) {
    && Ids(s)
    && Memory(s)
    && (forall h | h in s.handles :: InOrder(s.handles[h]))
    && Locks(s)
    && NoLostWakeUp(s)
  }

  lemma InitialInv(value: Option<Value>, addr: nat)
    ensures Inv(Initial(value, addr))
  {
  }

  lemma IdsKept(s: State, step: Step)
    requires Ids(s) && Enabled(s, step)
    ensures Ids(Apply(s, step))
  {
  }

  lemma HandleLocksKept(s: State, step: Step)
    requires Ids(s) && Locks(s) && Enabled(s, step)
    ensures HandleLocks(Apply(s, step))
  {
  }

  lemma SwapLocksKept(s: State, step: Step)
    requires Ids(s) && Locks(s) && Enabled(s, step)
    ensures SwapLocks(Apply(s, step))
  {
  }

  /** Whoever notifies holds the mutex, so nobody is between the comparison and the wait. */
  lemma NotifyWakesAll(s: State, id: nat, h: nat)
    requires Locks(s) && Enabled(s, NotifyAll(id)) && h in s.handles
    ensures !Oversleeps(WakeUp(s.handles[h]), s.inner)
  {
    assert SwapHasLock(s.swaps[id]);
    assert HasLock(s.handles[h].pc) <==> s.mutex == HandleOwner(h);
  }

  lemma PendingKept(s: State, step: Step)
    requires Ids(s) && Enabled(s, step) && !step.NotifyAll? && (Pending(s) || step.Store?)
    ensures Pending(Apply(s, step))
  {
    var s' := Apply(s, step);
    if step.Store? {
      assert MustNotify(s'.swaps[step.id]);
    } else {
      var o :| o in s.swaps && MustNotify(s.swaps[o]);
      assert MustNotify(s'.swaps[o]);
    }
  }

  lemma WakeUpsKept(s: State, step: Step)
    requires Ids(s) && Locks(s) && NoLostWakeUp(s) && Enabled(s, step)
    ensures NoLostWakeUp(Apply(s, step))
  {
    if step.NotifyAll? {
      forall h | h in s.handles ensures !Oversleeps(Apply(s, step).handles[h], s.inner) {
        NotifyWakesAll(s, step.id, h);
      }
    } else if Pending(s) || step.Store? {
      PendingKept(s, step);
    } else {
      forall h | h in Apply(s, step).handles ensures !Oversleeps(Apply(s, step).handles[h], s.inner) {
      }
    }
  }

  lemma OrderKept(s: State, step: Step)
    requires Memory(s) && Enabled(s, step) && forall h | h in s.handles :: InOrder(s.handles[h])
    ensures forall h | h in Apply(s, step).handles :: InOrder(Apply(s, step).handles[h])
  {
    if step.Load? {
      assert Holds(s, s.handles[step.id].cached);
      assert GoodCell(s, s.handles[step.id].cached);
    }
  }

  // ---- Memory ----

  /** What every step but a store and a new swap does to the memory. */
  ghost predicate HoldsNoMore(s: State, s': State) {
    && s'.inner == s.inner && s'.history == s.history
    && (forall c | Holds(s', c) :: Holds(s, c))
    && (forall o | o in s'.swaps && s'.swaps[o].Ready? :: o in s.swaps && s'.swaps[o] == s.swaps[o])
  }

  lemma HandleStep(s: State, step: Step)
    requires Enabled(s, step) && !step.BeginSwap? && !step.Store? && !step.Reclaim?
    ensures HoldsNoMore(s, Apply(s, step)) && Apply(s, step).mem == s.mem
  {
    var s' := Apply(s, step);
    forall c | Holds(s', c) ensures Holds(s, c) {
      if h :| h in s'.handles && HandleHolds(s'.handles[h], c) {
        HandleHeld(s, step, h, c);
      } else if o :| o in s'.swaps && SwapHolds(s'.swaps[o], c) {
        assert SwapHolds(s.swaps[o], c);
      }
    }
  }

  lemma HandleHeld(s: State, step: Step, h: nat, c: Cell)
    requires Enabled(s, step) && !step.BeginSwap? && !step.Store? && !step.Reclaim?
    requires h in Apply(s, step).handles && HandleHolds(Apply(s, step).handles[h], c)
    ensures Holds(s, c)
  {
    if h in s.handles && Apply(s, step).handles[h] == s.handles[h] {
    } else if step.CloneHandle? {
      assert HandleHolds(s.handles[step.id], c);
    } else if !step.Load? || c != s.inner {
      assert HandleHolds(s.handles[h], c);
    }
  }

  lemma MemoryOfFewerHolders(s: State, s': State)
    requires Memory(s) && HoldsNoMore(s, s')
    requires forall a | a in s.mem && (a in s'.mem || InUse(s', a)) :: a in s'.mem && s'.mem[a] == s.mem[a]
    ensures Memory(s')
  {
    forall c | Holds(s', c) ensures GoodCell(s', c) {
      assert GoodCell(s, c);
      assert c.ptr.At? ==> InUse(s', c.ptr.addr);
    }
    forall o | o in s'.swaps && s'.swaps[o].Ready? ensures Unpublished(s', o) {
      assert Unpublished(s, o);
      assert s'.swaps[o].ptr.At? ==> InUse(s', s'.swaps[o].ptr.addr);
    }
  }

  lemma ReclaimKeepsMemory(s: State, addr: nat)
    requires Memory(s) && Enabled(s, Reclaim(addr))
    ensures Memory(Apply(s, Reclaim(addr)))
  {
    var s' := Apply(s, Reclaim(addr));
    assert forall c | Holds(s', c) :: Holds(s, c);
    assert forall a | InUse(s', a) :: InUse(s, a);
    MemoryOfFewerHolders(s, s');
  }

  /** A new Arc gets an address that nobody holds, because every held address is allocated. */
  lemma NewSwapKeepsMemory(s: State, value: Option<Value>, addr: nat)
    requires Ids(s) && Memory(s) && Enabled(s, BeginSwap(value, addr))
    ensures Memory(Apply(s, BeginSwap(value, addr)))
  {
    var s' := Apply(s, BeginSwap(value, addr));
    forall c | Holds(s', c) ensures Holds(s, c) && GoodCell(s', c) {
      assert Holds(s, c) by {
        if o :| o in s'.swaps && SwapHolds(s'.swaps[o], c) {
          assert SwapHolds(s.swaps[o], c);
        }
      }
      assert GoodCell(s, c);
    }
    forall o | o in s'.swaps && s'.swaps[o].Ready? ensures Unpublished(s', o) {
      if o != s.nextId {
        assert Unpublished(s, o);
      }
    }
  }

  /** Publishing a new Arc: no cell that is still held has its address. */
  lemma StoreKeepsMemory(s: State, id: nat)
    requires Memory(s) && Enabled(s, Store(id))
    ensures Memory(Apply(s, Store(id)))
  {
    var s' := Apply(s, Store(id));
    assert Unpublished(s, id);
    forall c | Holds(s', c) ensures c == s'.inner || (Holds(s, c) && GoodCell(s, c)) {
      if o :| o in s'.swaps && SwapHolds(s'.swaps[o], c) {
        assert o == id || SwapHolds(s.swaps[o], c);
      }
    }
    forall o | o in s'.swaps && s'.swaps[o].Ready? ensures Unpublished(s', o) {
      assert Unpublished(s, o);
    }
  }

  lemma StepKeepsInv(s: State, step: Step)
    requires Inv(s) && Enabled(s, step)
    ensures Inv(Apply(s, step))
  {
    IdsKept(s, step);
    HandleLocksKept(s, step);
    SwapLocksKept(s, step);
    WakeUpsKept(s, step);
    OrderKept(s, step);
    hide *;
    hide Apply;
    if step.BeginSwap? {
      NewSwapKeepsMemory(s, step.value, step.addr);
    } else if step.Store? {
      StoreKeepsMemory(s, step.id);
    } else if step.Reclaim? {
      ReclaimKeepsMemory(s, step.addr);
    } else {
      HandleStep(s, step);
      MemoryOfFewerHolders(s, Apply(s, step));
    }
  }

  // ---- Runs ----

  ghost predicate IsRun(states: seq<State>, steps: seq<Step>) {
    && |states| == |steps| + 1
    && (exists value, addr :: states[0] == Initial(value, addr))
    && (forall i | 0 <= i < |steps| :: Enabled(states[i], steps[i]) && states[i + 1] == Apply(states[i], steps[i]))
  }

  lemma {:induction false} RunsKeepInv(states: seq<State>, steps: seq<Step>, i: nat)
    requires IsRun(states, steps) && i < |states|
    ensures Inv(states[i])
  {
    if i == 0 {
      var value, addr :| states[0] == Initial(value, addr);
      InitialInv(value, addr);
    } else {
      RunsKeepInv(states, steps, i - 1);
      StepKeepsInv(states[i - 1], steps[i - 1]);
    }
  }

  /** No lost wake-up: when no swap is between its store and its notification, whoever sleeps has the current value. */
  lemma NobodySleepsOnAnOldValue(states: seq<State>, steps: seq<Step>, i: nat, h: nat)
    requires IsRun(states, steps) && i < |states|
    requires AtPc(states[i], h, Asleep) && !Pending(states[i])
    ensures var s := states[i];
      && s.handles[h].cached.ptr == s.inner.ptr
      && s.inner.version == |s.history| - 1
      && Reads(s.mem, s.handles[h].cached.ptr, s.history[s.inner.version])
      && (s.inner.ptr.At? ==> s.handles[h].cached.version == s.inner.version)
  {
    RunsKeepInv(states, steps, i);
    var s := states[i];
    assert !Oversleeps(s.handles[h], s.inner);
    assert Holds(s, s.handles[h].cached) && Holds(s, s.inner);
    assert GoodCell(s, s.inner);
  }

  function Last(states: seq<State>): State
    requires |states| > 0
  {
    states[|states| - 1]
  }

  lemma ExtendRun(states: seq<State>, steps: seq<Step>, step: Step) returns (longer: seq<State>, more: seq<Step>)
    requires IsRun(states, steps) && Enabled(Last(states), step)
    ensures IsRun(longer, more) && |longer| > 0 && Last(longer) == Apply(Last(states), step)
  {
    hide Enabled;
    hide Apply;
    longer, more := states + [Apply(Last(states), step)], steps + [step];
  }

  /** An empty channel with one handle. */
  function Alone(pc: Pc, mutex: Owner): State {
    Initial(None, 0).(handles := map[0 := Handle(Cell(Null, 0), pc)], mutex := mutex)
  }

  lemma AloneBeginsToWait()
    ensures Enabled(Alone(Idle, Nobody), BeginWait(0))
    ensures Apply(Alone(Idle, Nobody), BeginWait(0)) == Alone(Locked, HandleOwner(0))
  {
  }

  lemma AloneLoads()
    ensures Enabled(Alone(Locked, HandleOwner(0)), Load(0))
    ensures Apply(Alone(Locked, HandleOwner(0)), Load(0)) == Alone(Comparing(Cell(Null, 0), true), HandleOwner(0))
  {
  }

  lemma AloneCompares()
    ensures Enabled(Alone(Comparing(Cell(Null, 0), true), HandleOwner(0)), Compare(0))
    ensures Apply(Alone(Comparing(Cell(Null, 0), true), HandleOwner(0)), Compare(0))
         == Alone(AboutToWait, HandleOwner(0))
  {
  }

  lemma AloneSleeps()
    ensures Enabled(Alone(AboutToWait, HandleOwner(0)), Sleep(0))
    ensures Apply(Alone(AboutToWait, HandleOwner(0)), Sleep(0)) == Alone(Asleep, Nobody)
  {
  }

  lemma AloneStarts()
    ensures IsRun([Alone(Idle, Nobody)], [])
  {
    assert Initial(None, 0) == Alone(Idle, Nobody);
  }

  lemma FallAsleep() returns (states: seq<State>, steps: seq<Step>)
    ensures IsRun(states, steps) && |states| > 0 && Last(states) == Alone(Asleep, Nobody)
  {
    AloneStarts();
    AloneBeginsToWait();
    AloneLoads();
    AloneCompares();
    AloneSleeps();
    hide Alone;
    hide Apply;
    hide Enabled;
    hide IsRun;
    states, steps := [Alone(Idle, Nobody)], [];
    states, steps := ExtendRun(states, steps, BeginWait(0));
    states, steps := ExtendRun(states, steps, Load(0));
    states, steps := ExtendRun(states, steps, Compare(0));
    states, steps := ExtendRun(states, steps, Sleep(0));
  }

  /** The case that the invariant is about occurs: a store leaves a handle asleep on an old value until the
      notification. */
  lemma SleeperWithOldValueIsReachable(value: Value) returns (states: seq<State>, steps: seq<Step>)
    ensures IsRun(states, steps) && |states| > 0
    ensures var s := Last(states); AtPc(s, 0, Asleep) && s.handles[0].cached.ptr != s.inner.ptr && Pending(s)
  {
    states, steps := FallAsleep();
    hide IsRun;
    states, steps := ExtendRun(states, steps, BeginSwap(Some(value), 0));
    states, steps := ExtendRun(states, steps, Store(1));
    assert MustNotify(Last(states).swaps[1]);
  }

  /** Every pointer that a handle or a caller of `swap` has can be read and gives the value of its own store. */
  lemma HeldPointersStayReadable(states: seq<State>, steps: seq<Step>, i: nat, c: Cell)
    requires IsRun(states, steps) && i < |states| && Holds(states[i], c)
    ensures c.version < |states[i].history| && Reads(states[i].mem, c.ptr, states[i].history[c.version])
  {
    RunsKeepInv(states, steps, i);
    assert GoodCell(states[i], c);
  }

  /** The comparison of addresses decides correctly although addresses are reused: equal means the loaded value is
      the cached one, unequal means that a later store was loaded; the handle ends with what the cell held at the
      load. */
  lemma ComparisonIsRight(states: seq<State>, steps: seq<Step>, i: nat, h: nat)
    requires IsRun(states, steps) && i < |states|
    requires h in states[i].handles && states[i].handles[h].pc.Comparing?
    ensures var s, x := states[i], states[i].handles[h];
      && x.pc.guard.version < |s.history| && x.cached.version < |s.history|
      && (x.cached.ptr != x.pc.guard.ptr ==> x.cached.version < x.pc.guard.version)
      && (x.cached.ptr == x.pc.guard.ptr ==> s.history[x.cached.version] == s.history[x.pc.guard.version])
      && (x.cached.ptr == x.pc.guard.ptr && x.cached.ptr.At? ==> x.cached.version == x.pc.guard.version)
      && Reads(s.mem, Compared(x).cached.ptr, s.history[x.pc.guard.version])
  {
    RunsKeepInv(states, steps, i);
    var s, x := states[i], states[i].handles[h];
    assert Holds(s, x.cached) && Holds(s, x.pc.guard);
    assert GoodCell(s, x.cached) && GoodCell(s, x.pc.guard) && Agree(x.cached, x.pc.guard);
    assert InOrder(x);
  }

  lemma StepForHandle(s: State, step: Step, h: nat)
    requires Inv(s) && Enabled(s, step) && h in Apply(s, step).handles && (h in s.handles || h < s.nextId)
    ensures h in s.handles && s.handles[h].cached.version <= Apply(s, step).handles[h].cached.version
  {
    hide Memory;
    hide Locks;
    hide NoLostWakeUp;
    assert h in s.handles;
    assert InOrder(s.handles[h]);
  }

  /** Every handle sees the stores in the order in which they happened. */
  lemma {:induction false} VersionsNeverDecrease(states: seq<State>, steps: seq<Step>, i: nat, j: nat, h: nat)
    requires IsRun(states, steps) && i <= j < |states|
    requires h in states[i].handles && h in states[j].handles
    ensures states[i].handles[h].cached.version <= states[j].handles[h].cached.version
  {
    hide Apply;
    hide Enabled;
    hide Memory;
    hide Locks;
    hide NoLostWakeUp;
    if i == j {
    } else {
      RunsKeepInv(states, steps, i);
      RunsKeepInv(states, steps, j - 1);
      IdsGrow(states, steps, i, j - 1);
      StepForHandle(states[j - 1], steps[j - 1], h);
      VersionsNeverDecrease(states, steps, i, j - 1, h);
    }
  }

  lemma {:induction false} IdsGrow(states: seq<State>, steps: seq<Step>, i: nat, j: nat)
    requires IsRun(states, steps) && i <= j < |states|
    ensures states[i].nextId <= states[j].nextId
  {
    if i == j {
    } else {
      IdsGrow(states, steps, i, j - 1);
    }
  }

  /** A clone starts from the version of the handle it was cloned from. */
  lemma CloneStartsWhereItsSourceIs(s: State, id: nat)
    requires Inv(s) && Enabled(s, CloneHandle(id))
    ensures s.nextId !in s.handles
    ensures Apply(s, CloneHandle(id)).handles == s.handles[s.nextId := Handle(s.handles[id].cached, Idle)]
  {
  }

  /** Two held pointers are equal exactly if they come from the same store or both stores put in nothing. */
  lemma PointersTellStores(states: seq<State>, steps: seq<Step>, i: nat, c: Cell, d: Cell)
    requires IsRun(states, steps) && i < |states| && Holds(states[i], c) && Holds(states[i], d)
    ensures c.version < |states[i].history| && d.version < |states[i].history|
    ensures c.ptr == d.ptr <==>
      c.version == d.version || (states[i].history[c.version].None? && states[i].history[d.version].None?)
  {
    RunsKeepInv(states, steps, i);
    assert GoodCell(states[i], c) && GoodCell(states[i], d) && Agree(c, d);
  }

  // ---- What a swap returns ----

  lemma PreviousStep(s: State, step: Step, o: nat)
    requires Ids(s) && Enabled(s, step) && step != Store(o)
    requires o in Apply(s, step).swaps && !Apply(s, step).swaps[o].Ready?
    ensures o in s.swaps && !s.swaps[o].Ready? && s.swaps[o].previous == Apply(s, step).swaps[o].previous
  {
  }

  /** From its store on, a swap holds what was in the cell just before it: the last store but its own. */
  lemma {:induction false} SwapReturnsPrevious(states: seq<State>, steps: seq<Step>, j: nat, o: nat) returns (i: nat)
    requires IsRun(states, steps) && j < |states| && o in states[j].swaps && !states[j].swaps[o].Ready?
    ensures i < j && steps[i] == Store(o) && states[j].swaps[o].previous == states[i].inner
    ensures states[i + 1].inner.version == states[i].inner.version + 1
  {
    assert j > 0;
    var s, step := states[j - 1], steps[j - 1];
    assert Enabled(s, step) && states[j] == Apply(s, step);
    RunsKeepInv(states, steps, j - 1);
    if step == Store(o) {
      i := j - 1;
    } else {
      PreviousStep(s, step, o);
      i := SwapReturnsPrevious(states, steps, j - 1, o);
    }
  }

  lemma ReadyStep(s: State, step: Step, o: nat)
    requires Ids(s) && Enabled(s, step) && o in Apply(s, step).swaps && Apply(s, step).swaps[o].Ready?
    requires !(step.BeginSwap? && s.nextId == o)
    ensures o in s.swaps && s.swaps[o] == Apply(s, step).swaps[o]
  {
  }

  /** What a swap is about to store is what it was called with. */
  lemma {:induction false} ReadyHoldsArgument(states: seq<State>, steps: seq<Step>, j: nat, o: nat) returns (i: nat)
    requires IsRun(states, steps) && j < |states| && o in states[j].swaps && states[j].swaps[o].Ready?
    ensures i < j && steps[i].BeginSwap? && states[i].nextId == o && states[j].swaps[o].value == steps[i].value
  {
    hide *;
    StartsWithoutSwaps(states, steps);
    assert j > 0;
    RunStep(states, steps, j - 1);
    if steps[j - 1].BeginSwap? && states[j - 1].nextId == o {
      NewSwapIsReady(states[j - 1], steps[j - 1]);
      i := j - 1;
    } else {
      ReadyStep(states[j - 1], steps[j - 1], o);
      i := ReadyHoldsArgument(states, steps, j - 1, o);
    }
  }

  lemma StartsWithoutSwaps(states: seq<State>, steps: seq<Step>)
    requires IsRun(states, steps)
    ensures |states| > 0 && states[0].swaps == map[]
  {
  }

  lemma RunStep(states: seq<State>, steps: seq<Step>, k: nat)
    requires IsRun(states, steps) && k + 1 < |states|
    ensures k < |steps| && Enabled(states[k], steps[k]) && states[k + 1] == Apply(states[k], steps[k]) && Ids(states[k])
  {
    RunsKeepInv(states, steps, k);
    hide Apply;
    hide Enabled;
    hide Memory;
    hide Locks;
    hide NoLostWakeUp;
  }

  lemma NewSwapIsReady(s: State, step: Step)
    requires Enabled(s, step) && step.BeginSwap?
    ensures s.nextId in Apply(s, step).swaps && Apply(s, step).swaps[s.nextId].Ready?
    ensures Apply(s, step).swaps[s.nextId].value == step.value
  {
  }

  /** A store puts the argument of its own call of swap into the cell, and that is what can be read there. */
  lemma StoreStoresArgument(states: seq<State>, steps: seq<Step>, j: nat, o: nat) returns (i: nat)
    requires IsRun(states, steps) && j < |steps| && steps[j] == Store(o)
    ensures i < j && steps[i].BeginSwap? && states[i].nextId == o
    ensures Reads(states[j + 1].mem, states[j + 1].inner.ptr, steps[i].value)
  {
    var s := states[j];
    assert Enabled(s, steps[j]) && states[j + 1] == Apply(s, steps[j]);
    i := ReadyHoldsArgument(states, steps, j, o);
    RunsKeepInv(states, steps, j + 1);
    assert Holds(states[j + 1], states[j + 1].inner);
    assert GoodCell(states[j + 1], states[j + 1].inner);
  }

  // ---- What a wait returns ----

  /** Inside `wait_for_change`, entered with the cached cell c: nothing changed, or about to return something newer. */
  predicate WaitsFrom(h: Handle, c: Cell) {
    match h.pc
    case Idle => false
    case Comparing(_, waiting) => waiting && h.cached == c
    case Releasing => h.cached.ptr != c.ptr && h.cached.version > c.version
    case _ => h.cached == c
  }

  lemma WaitStep(s: State, step: Step, h: nat, c: Cell)
    requires Inv(s) && Enabled(s, step) && h in s.handles && WaitsFrom(s.handles[h], c) && step != Release(h)
    ensures h in Apply(s, step).handles && WaitsFrom(Apply(s, step).handles[h], c)
  {
    hide Locks;
    hide NoLostWakeUp;
    var x := s.handles[h];
    if step == Compare(h) {
      assert Holds(s, x.cached) && Holds(s, x.pc.guard);
      assert Agree(x.cached, x.pc.guard) && InOrder(x);
    }
  }

  lemma {:induction false} WaitGoesOn(states: seq<State>, steps: seq<Step>, i: nat, j: nat, h: nat)
    requires IsRun(states, steps) && i < j < |states| && steps[i] == BeginWait(h)
    requires forall k | i < k < j :: steps[k] != Release(h)
    ensures h in states[i].handles && h in states[j].handles
    ensures WaitsFrom(states[j].handles[h], states[i].handles[h].cached)
  {
    if i + 1 < j {
      WaitGoesOn(states, steps, i, j - 1, h);
      RunsKeepInv(states, steps, j - 1);
      WaitStep(states[j - 1], steps[j - 1], h, states[i].handles[h].cached);
    }
  }

  /** A wait returns only with the value of a later store, and after an empty cached value only with work. */
  lemma WaitReturnsNews(states: seq<State>, steps: seq<Step>, i: nat, j: nat, h: nat)
    requires IsRun(states, steps) && i < j < |steps| && steps[i] == BeginWait(h) && steps[j] == Release(h)
    requires forall k | i < k < j :: steps[k] != Release(h)
    ensures h in states[i].handles && h in states[j + 1].handles
    ensures states[i].handles[h].cached.version < states[j + 1].handles[h].cached.version
    ensures states[i].handles[h].cached.ptr.Null? ==> states[j + 1].handles[h].cached.ptr.At?
  {
    WaitGoesOn(states, steps, i, j, h);
    assert Enabled(states[j], steps[j]);
  }

  // ---- The mutex ----

  /** Steps that the owner of the mutex still needs to give it back. */
  function StepsToUnlock(s: State): nat {
    match s.mutex
    case Nobody => 0
    case SwapOwner(o) => if o in s.swaps && s.swaps[o].Notifying? then 2 else 1
    case HandleOwner(h) =>
      if h in s.handles && s.handles[h].pc.Locked? then 3
      else if h in s.handles && s.handles[h].pc.Comparing? then 2
      else 1
  }

  predicate ByOwner(s: State, step: Step) {
    match step
    case NotifyAll(id) => s.mutex == SwapOwner(id)
    case UnlockAfterNotify(id) => s.mutex == SwapOwner(id)
    case Load(id) => s.mutex == HandleOwner(id)
    case Compare(id) => s.mutex == HandleOwner(id)
    case Sleep(id) => s.mutex == HandleOwner(id)
    case Release(id) => s.mutex == HandleOwner(id)
    case _ => false
  }

  /** The owner of the mutex is never blocked. */
  lemma OwnerCanStep(s: State) returns (step: Step)
    requires Inv(s) && s.mutex != Nobody
    ensures Enabled(s, step) && ByOwner(s, step)
  {
    match s.mutex
    case SwapOwner(o) =>
      step := if s.swaps[o].Notifying? then NotifyAll(o) else UnlockAfterNotify(o);
      assert SwapHasLock(s.swaps[o]);
    case HandleOwner(h) =>
      assert HasLock(s.handles[h].pc);
      match s.handles[h].pc
      case Locked => step := Load(h);
      case Comparing(_, _) => step := Compare(h);
      case AboutToWait => step := Sleep(h);
      case _ => step := Release(h);
  }

  /** Whatever others do, the owner gives the mutex back after at most three steps of its own. */
  lemma MutexIsGivenBack(s: State, step: Step)
    requires Inv(s) && Enabled(s, step) && s.mutex != Nobody
    ensures StepsToUnlock(s) <= 3
    ensures StepsToUnlock(Apply(s, step)) == StepsToUnlock(s) - if ByOwner(s, step) then 1 else 0
  {
  }
}
