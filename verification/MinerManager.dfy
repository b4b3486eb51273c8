/** `process_block` of miner.rs: new templates from the node go to the work channel, and repeated "not synced" answers
    are not published again. */
module MinerManager {
  import opened Options
  import opened HeaderHashing
  import opened MinerThreads
  import Header
  import Pow

  /** What `process_block` is given, as `State::new` sees it: nothing, a block it does not accept, or a template. */
  datatype Call = NotSynced | BadBlock | Template(job: Job)

  datatype Manager = Manager(isSynced: bool, nextId: nat, cell: Seen)

  const START: Manager := Manager(true, 0, Seen(0, None))

  function Stored(cell: Seen, job: Option<Job>): Seen {
    Seen(cell.version + 1, job)
  }

  function Processed(m: Manager, call: Call): Manager {
    match call
    case NotSynced => if m.isSynced then m.(isSynced := false, cell := Stored(m.cell, None)) else m
    case BadBlock => m.(isSynced := true, nextId := m.nextId + 1)
    case Template(job) => Manager(true, m.nextId + 1, Stored(m.cell, Some(job)))
  }

  /** The fields of MinerManager that `process_block` uses, with the cell of the channel. */
  class MinerManager {
    var isSynced: bool
    var currentStateId: nat
    var cell: Seen

    function View(): Manager
      reads this
    {
      Manager(isSynced, currentStateId, cell)
    }

    constructor ()
      ensures View() == START
    {
      isSynced, currentStateId, cell := true, 0, Seen(0, None);
    }

    /** false is the error of a block without header, or the panic on a header that is not well formed. */
    method ProcessBlock(block: Option<Pow.Block>, blake2b: Blake2b) returns (ok: bool, ghost call: Call)
      requires block.Some? ==> Pow.MatrixExists(block.value, blake2b)
      modifies this
      ensures View() == Processed(old(View()), call)
      ensures isSynced <==> block.Some?
      ensures currentStateId == old(currentStateId) + if block.Some? then 1 else 0
      ensures cell == if call.Template? then Seen(old(cell.version) + 1, Some(call.job))
        else if block.None? && old(isSynced) then Seen(old(cell.version) + 1, None) else old(cell)
      ensures ok <==> !call.BadBlock?
      ensures call.NotSynced? <==> block.None?
      ensures call.BadBlock? <==>
        block.Some? && (block.value.header.None? || !Header.WellFormed(block.value.header.value))
      ensures call.Template? ==>
        GoodJob(call.job, blake2b) && call.job.block == block.value && call.job.id == old(currentStateId)
    {
      hide Pow.Valid;
      hide Pow.MatrixExists;
      hide Header.WellFormed;
      ok := true;
      var state: Option<Job> := None;
      if block.Some? {
        isSynced := true;
        var id := currentStateId;
        currentStateId := currentStateId + 1;
        var r := Pow.NewState(id, block.value, blake2b);
        if !r.Success? {
          return false, BadBlock;
        }
        state := Some(r.value);
        call := Template(r.value);
      } else {
        call := NotSynced;
        if !isSynced {
          return;
        }
        isSynced := false;
      }
      cell := Stored(cell, state);
    }
  }

  // ---- Sequences of calls ----

  /** The manager after the first k calls. */
  function After(calls: seq<Call>, k: nat): Manager
    requires k <= |calls|
  {
    if k == 0 then START else Processed(After(calls, k - 1), calls[k - 1])
  }

  /** A manager that stores an empty value on every "not synced" answer. */
  function AlwaysStored(calls: seq<Call>, k: nat): Seen
    requires k <= |calls|
  {
    if k == 0 then Seen(0, None)
    else match calls[k - 1]
      case NotSynced => Stored(AlwaysStored(calls, k - 1), None)
      case BadBlock => AlwaysStored(calls, k - 1)
      case Template(job) => Stored(AlwaysStored(calls, k - 1), Some(job))
  }

  /** Every template has its own id: each call with a block takes the next one, even if the block is not accepted. */
  lemma {:induction false} TemplateIdsAreDistinct(calls: seq<Call>, i: nat, k: nat)
    requires i < k < |calls| && calls[i].Template? && calls[k].Template?
    requires forall n | 0 <= n < |calls| && calls[n].Template? :: calls[n].job.id == After(calls, n).nextId
    ensures calls[i].job.id < calls[k].job.id
  {
    IdsGrow(calls, i + 1, k);
  }

  lemma {:induction false} IdsGrow(calls: seq<Call>, i: nat, k: nat)
    requires i <= k <= |calls|
    ensures After(calls, i).nextId <= After(calls, k).nextId
  {
    if i == k {
    } else {
      IdsGrow(calls, i, k - 1);
    }
  }

  /** When the manager thinks the node is not synced, the channel is empty. */
  lemma {:induction false} NotSyncedMeansEmpty(calls: seq<Call>, k: nat)
    requires k <= |calls| && !After(calls, k).isSynced
    ensures After(calls, k).cell.job.None?
  {
    if k > 0 && After(calls, k - 1) == After(calls, k) {
      NotSyncedMeansEmpty(calls, k - 1);
    }
  }

  lemma {:induction false} SameJobs(calls: seq<Call>, k: nat)
    requires k <= |calls|
    ensures After(calls, k).cell.job == AlwaysStored(calls, k).job
  {
    if k == 0 {
    } else {
      SameJobs(calls, k - 1);
      if !After(calls, k - 1).isSynced {
        NotSyncedMeansEmpty(calls, k - 1);
      }
    }
  }

  lemma {:induction false} VersionsGrow(calls: seq<Call>, i: nat, k: nat)
    requires i <= k <= |calls|
    ensures After(calls, i).cell.version <= After(calls, k).cell.version
    ensures AlwaysStored(calls, i).version <= AlwaysStored(calls, k).version
    ensures After(calls, i).cell.version == After(calls, k).cell.version ==>
      After(calls, i).cell == After(calls, k).cell
  {
    if i == k {
    } else {
      VersionsGrow(calls, i, k - 1);
    }
  }

  /** Between two moments the pointer in the cell changes in one version exactly if it changes in the other. */
  lemma {:induction false} SameComparisons(calls: seq<Call>, i: nat, k: nat)
    requires i <= k <= |calls|
    ensures SamePointer(After(calls, i).cell, After(calls, k).cell) <==>
      SamePointer(AlwaysStored(calls, i), AlwaysStored(calls, k))
  {
    SameJobs(calls, i);
    SameJobs(calls, k);
    if i == k {
    } else {
      SameComparisons(calls, i, k - 1);
      SameJobs(calls, k - 1);
      VersionsGrow(calls, i, k - 1);
      if !After(calls, k - 1).isSynced {
        NotSyncedMeansEmpty(calls, k - 1);
      }
    }
  }

  // ---- What a receiver observes ----

  datatype Observation = Observation(changed: bool, job: Option<Job>)

  /** Loads of a receiver after given numbers of calls; it caches what it loads when the pointers differ. */
  function Observations(cells: nat -> Seen, cached: Seen, times: seq<nat>): seq<Observation>
    decreases |times|
  {
    if times == [] then [] else
    var loaded := cells(times[0]);
    if SamePointer(cached, loaded) then [Observation(false, cached.job)] + Observations(cells, cached, times[1..])
    else [Observation(true, loaded.job)] + Observations(cells, loaded, times[1..])
  }

  predicate Ascending(times: seq<nat>, from: nat, to: nat) {
    && (forall i | 0 <= i < |times| :: from <= times[i] <= to)
    && (forall i, j | 0 <= i < j < |times| :: times[i] <= times[j])
  }

  function SkippingCells(calls: seq<Call>): nat -> Seen {
    (k: nat) => if k <= |calls| then After(calls, k).cell else Seen(0, None)
  }

  function AlwaysCells(calls: seq<Call>): nat -> Seen {
    (k: nat) => if k <= |calls| then AlwaysStored(calls, k) else Seen(0, None)
  }

  /** No receiver can tell that the repeated empty values were skipped. */
  lemma {:induction false} SkippingIsNotObservable(calls: seq<Call>, start: nat, times: seq<nat>)
    requires start <= |calls| && Ascending(times, start, |calls|)
    ensures Observations(SkippingCells(calls), SkippingCells(calls)(start), times)
         == Observations(AlwaysCells(calls), AlwaysCells(calls)(start), times)
    decreases |times|
  {
    if times == [] {
    } else {
      hide After;
      hide AlwaysStored;
      var t := times[0];
      SameJobs(calls, start);
      SameJobs(calls, t);
      SameComparisons(calls, start, t);
      SkippingIsNotObservable(calls, start, times[1..]);
      SkippingIsNotObservable(calls, t, times[1..]);
    }
  }
}
