/** The steps that MinerThreads takes on its channel are what whole calls of `get_changed` and `wait_for_change` do on
    a run of WatchSwap, with the cell as it was at the one load that counts. */
module WorkChannel {
  import opened Options
  import opened WatchSwap
  import Miners = MinerThreads

  /** Which job each value of the cell stands for. */
  type Naming = Value -> Miners.Job

  function JobOf(value: Option<Value>, name: Naming): Option<Miners.Job> {
    match value
    case None => None
    case Some(v) => Some(name(v))
  }

  /** The stores of the miners' channel are the history of the cell. */
  function StoresOf(s: State, name: Naming): (r: seq<Option<Miners.Job>>)
    ensures |r| == |s.history|
    ensures forall k | 0 <= k < |r| :: match s.history[k]
      case None => r[k] == None
      case Some(v) => r[k] == Some(name(v))
  {
    seq(|s.history|, k requires 0 <= k < |s.history| => JobOf(s.history[k], name))
  }

  function SeenOf(s: State, c: Cell, name: Naming): Miners.Seen
    requires c.version < |s.history|
  {
    Miners.Seen(c.version, JobOf(s.history[c.version], name))
  }

  /** What a load finds in the channel of the miners. */
  function LoadedAt(s: State, name: Naming): Miners.Seen
    requires |s.history| > 0
  {
    Miners.Latest(Miners.System([], StoresOf(s, name), 0, 0))
  }

  lemma LoadedIsInner(s: State, name: Naming)
    requires Memory(s)
    ensures s.inner.version < |s.history| && LoadedAt(s, name) == SeenOf(s, s.inner, name)
  {
  }

  /** A store is a publication, and nothing else changes the stores. */
  lemma StoreIsPublish(s: State, step: Step, name: Naming)
    requires Enabled(s, step)
    ensures StoresOf(Apply(s, step), name) ==
      StoresOf(s, name) + if step.Store? then [JobOf(s.swaps[step.id].value, name)] else []
  {
  }

  lemma {:induction false} HistoryGrows(states: seq<State>, steps: seq<Step>, i: nat, j: nat)
    requires IsRun(states, steps) && i <= j < |states|
    ensures states[i].history <= states[j].history
  {
    if i == j {
    } else {
      HistoryGrows(states, steps, i, j - 1);
      HistoryStep(states[j - 1], steps[j - 1]);
    }
  }

  lemma HistoryStep(s: State, step: Step)
    requires Enabled(s, step)
    ensures s.history <= Apply(s, step).history
  {
  }

  /** The last load of a handle that is about to compare. */
  ghost predicate LoadedBy(states: seq<State>, steps: seq<Step>, l: nat, k: nat, h: nat)
    requires |states| == |steps| + 1 && k < |states|
  {
    && l < k && steps[l] == Load(h) && h in states[l].handles && h in states[k].handles
    && states[k].handles[h] ==
      Handle(states[l].handles[h].cached, Comparing(states[l].inner, states[l].handles[h].pc == Locked))
    && (forall m | l < m <= k :: h in states[m].handles && states[m].handles[h] == states[k].handles[h])
  }

  lemma GuardStep(s: State, step: Step, h: nat)
    requires Enabled(s, step) && Ids(s) && h in Apply(s, step).handles && Apply(s, step).handles[h].pc.Comparing?
    requires step != Load(h)
    ensures h in s.handles && s.handles[h] == Apply(s, step).handles[h]
  {
  }

  lemma {:induction false} GuardComesFromLoad(states: seq<State>, steps: seq<Step>, k: nat, h: nat) returns (l: nat)
    requires IsRun(states, steps) && k < |states| && h in states[k].handles && states[k].handles[h].pc.Comparing?
    ensures LoadedBy(states, steps, l, k, h)
  {
    assert k > 0;
    assert Enabled(states[k - 1], steps[k - 1]) && states[k] == Apply(states[k - 1], steps[k - 1]);
    if steps[k - 1] == Load(h) {
      l := k - 1;
    } else {
      RunsKeepInv(states, steps, k - 1);
      GuardStep(states[k - 1], steps[k - 1], h);
      l := GuardComesFromLoad(states, steps, k - 1, h);
    }
  }

  /** Pointers differ exactly if the miners' versions of what they stand for do. */
  lemma PointersAreSeen(states: seq<State>, steps: seq<Step>, k: nat, c: Cell, d: Cell, name: Naming)
    requires IsRun(states, steps) && k < |states| && Holds(states[k], c) && Holds(states[k], d)
    ensures c.version < |states[k].history| && d.version < |states[k].history|
    ensures c.ptr == d.ptr <==> Miners.SamePointer(SeenOf(states[k], c, name), SeenOf(states[k], d, name))
  {
    PointersTellStores(states, steps, k, c, d);
    hide IsRun;
  }

  lemma SeenStays(s: State, s': State, c: Cell, name: Naming)
    requires s.history <= s'.history && c.version < |s.history|
    ensures SeenOf(s, c, name) == SeenOf(s', c, name)
  {
  }

  /** Every comparison, of `get_changed` or inside a wait, acts on the cached value of a thread as a refresh with what
      the channel held at the load before it. */
  lemma CompareIsRefresh(states: seq<State>, steps: seq<Step>, i: nat, h: nat, name: Naming, w: Miners.Worker)
    returns (l: nat)
    requires IsRun(states, steps) && i < |steps| && steps[i] == Compare(h)
    requires h in states[i].handles && states[i].handles[h].cached.version < |states[i].history|
    requires w.cached == SeenOf(states[i], states[i].handles[h].cached, name)
    ensures LoadedBy(states, steps, l, i, h) && |states[l].history| > 0
    ensures h in states[i + 1].handles && states[i + 1].handles[h].cached.version < |states[i + 1].history|
    ensures Miners.Refreshed(w, LoadedAt(states[l], name)).cached
         == SeenOf(states[i + 1], states[i + 1].handles[h].cached, name)
  {
    assert Enabled(states[i], steps[i]) && states[i + 1] == Apply(states[i], steps[i]);
    l := GuardComesFromLoad(states, steps, i, h);
    RunsKeepInv(states, steps, l);
    HistoryGrows(states, steps, l, i);
    LoadedIsInner(states[l], name);
    var x := states[i].handles[h];
    SeenStays(states[l], states[i], x.pc.guard, name);
    assert Holds(states[i], x.cached) && Holds(states[i], x.pc.guard);
    PointersAreSeen(states, steps, i, x.cached, x.pc.guard, name);
  }

  // ---- Completed waits ----

  lemma ReleasingStep(s: State, step: Step, h: nat)
    requires Ids(s) && Enabled(s, step) && step != Compare(h)
    requires h in Apply(s, step).handles && Apply(s, step).handles[h].pc.Releasing?
    ensures h in s.handles && s.handles[h] == Apply(s, step).handles[h]
  {
  }

  /** A wait that is about to return has just compared. */
  lemma {:induction false} ReleasingComesFromCompare(states: seq<State>, steps: seq<Step>, i: nat, j: nat, h: nat)
    returns (c: nat)
    requires IsRun(states, steps) && i < j < |states| && steps[i] == BeginWait(h)
    requires h in states[j].handles && states[j].handles[h].pc.Releasing?
    ensures i < c < j && steps[c] == Compare(h) && h in states[c + 1].handles
    ensures states[c + 1].handles[h] == states[j].handles[h]
  {
    assert Enabled(states[j - 1], steps[j - 1]) && states[j] == Apply(states[j - 1], steps[j - 1]);
    if steps[j - 1] == Compare(h) {
      c := j - 1;
    } else {
      RunsKeepInv(states, steps, j - 1);
      ReleasingStep(states[j - 1], steps[j - 1], h);
      c := ReleasingComesFromCompare(states, steps, i, j - 1, h);
    }
  }

  /** A completed wait is a refill with what the channel held at one load between its beginning and its end, and the
      pointers differed: the guard and the effect of the miners' Refill. */
  lemma WaitIsRefill(states: seq<State>, steps: seq<Step>, i: nat, j: nat, h: nat, name: Naming, w: Miners.Worker)
    returns (l: nat)
    requires IsRun(states, steps) && i < j < |steps| && steps[i] == BeginWait(h) && steps[j] == Release(h)
    requires forall k | i < k < j :: steps[k] != Release(h)
    requires h in states[i].handles && states[i].handles[h].cached.version < |states[i].history|
    requires w.cached == SeenOf(states[i], states[i].handles[h].cached, name)
    ensures i < l < j && steps[l] == Load(h) && |states[l].history| > 0
    ensures !Miners.SamePointer(w.cached, LoadedAt(states[l], name))
    ensures w.cached.job.None? ==> LoadedAt(states[l], name).job.Some?
    ensures h in states[j + 1].handles && states[j + 1].handles[h].cached.version < |states[j + 1].history|
    ensures Miners.Refilled(w, LoadedAt(states[l], name)).cached
         == SeenOf(states[j + 1], states[j + 1].handles[h].cached, name)
  {
    var c := WaitCompares(states, steps, i, j, h);
    l := GuardComesFromLoad(states, steps, c, h);
    LoadIsInside(states, steps, i, l, c, h);
    var x := states[c].handles[h];
    RunsKeepInv(states, steps, l);
    HistoryGrows(states, steps, i, c);
    HistoryGrows(states, steps, l, c);
    HistoryGrows(states, steps, c, j + 1);
    LoadedIsInner(states[l], name);
    SeenStays(states[i], states[c], x.cached, name);
    SeenStays(states[l], states[c], x.pc.guard, name);
    SeenStays(states[c], states[j + 1], x.pc.guard, name);
    assert Holds(states[c], x.cached) && Holds(states[c], x.pc.guard);
    PointersAreSeen(states, steps, c, x.cached, x.pc.guard, name);
  }

  lemma WaitCompares(states: seq<State>, steps: seq<Step>, i: nat, j: nat, h: nat) returns (c: nat)
    requires IsRun(states, steps) && i < j < |steps| && steps[i] == BeginWait(h) && steps[j] == Release(h)
    requires forall k | i < k < j :: steps[k] != Release(h)
    ensures i < c < j && h in states[i].handles && h in states[c].handles && h in states[j + 1].handles
    ensures states[c].handles[h].pc.Comparing? && states[c].handles[h].cached == states[i].handles[h].cached
    ensures states[c].handles[h].cached.ptr != states[c].handles[h].pc.guard.ptr
    ensures states[j + 1].handles[h].cached == states[c].handles[h].pc.guard
  {
    assert Enabled(states[j], steps[j]) && states[j + 1] == Apply(states[j], steps[j]);
    c := ReleasingComesFromCompare(states, steps, i, j, h);
    assert Enabled(states[c], steps[c]) && states[c + 1] == Apply(states[c], steps[c]);
    WaitGoesOn(states, steps, i, c, h);
  }

  lemma LoadIsInside(states: seq<State>, steps: seq<Step>, i: nat, l: nat, c: nat, h: nat)
    requires IsRun(states, steps) && i < c < |steps| && steps[i] == BeginWait(h) && LoadedBy(states, steps, l, c, h)
    requires states[c].handles[h].pc.Comparing?
    ensures i < l
  {
    assert Enabled(states[i], steps[i]);
    assert AtPc(states[i], h, Idle) && steps[l] != steps[i];
  }

  // ---- Step by step ----

  /** What a handle will have cached once its comparison is done. */
  function Settled(h: Handle): Cell {
    if h.pc.Comparing? then Compared(h).cached else h.cached
  }

  lemma SettledIsHeld(s: State, h: nat)
    requires Memory(s) && h in s.handles
    ensures Holds(s, Settled(s.handles[h])) && Settled(s.handles[h]).version < |s.history|
  {
    assert HandleHolds(s.handles[h], Settled(s.handles[h]));
    assert GoodCell(s, Settled(s.handles[h]));
  }

  /** With cached values taken as settled, every step of WatchSwap is a publication, a look at the channel by one
      handle at the moment of its load, or invisible to the miners. */
  lemma StepRefines(s: State, step: Step, h: nat, name: Naming)
    requires Inv(s) && Enabled(s, step) && h in s.handles && h in Apply(s, step).handles
    ensures var s' := Apply(s, step);
      && Settled(s.handles[h]).version < |s.history| && Settled(s'.handles[h]).version < |s'.history|
      && var before, after := SeenOf(s, Settled(s.handles[h]), name), SeenOf(s', Settled(s'.handles[h]), name);
      after == if step == Load(h) && !Miners.SamePointer(before, LoadedAt(s, name)) then LoadedAt(s, name) else before
  {
    var s' := Apply(s, step);
    StepKeepsInv(s, step);
    SettledIsHeld(s, h);
    SettledIsHeld(s', h);
    HistoryStep(s, step);
    SeenStays(s, s', Settled(s.handles[h]), name);
    SettledStep(s, step, h);
    if step == Load(h) {
      LoadedIsInner(s, name);
      assert Holds(s, s.handles[h].cached) && Agree(s.handles[h].cached, s.inner);
      assert GoodCell(s, s.handles[h].cached) && GoodCell(s, s.inner);
    }
  }

  lemma SettledStep(s: State, step: Step, h: nat)
    requires Enabled(s, step) && h in s.handles && h in Apply(s, step).handles && Ids(s)
    ensures step != Load(h) ==> Settled(Apply(s, step).handles[h]) == Settled(s.handles[h])
    ensures step == Load(h) ==> Settled(s.handles[h]) == s.handles[h].cached
    ensures step == Load(h) ==>
      Settled(Apply(s, step).handles[h]) ==
        if s.handles[h].cached.ptr == s.inner.ptr then s.handles[h].cached else s.inner
  {
  }
}
