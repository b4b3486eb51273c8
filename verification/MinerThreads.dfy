/** `launch_cpu_miner` of miner.rs: the loop of a thread, its use of the work channel and the shared hash counter. */
module MinerThreads {
  import opened Words
  import opened Options
  import opened Header
  import opened HeaderHashing
  import Pow

  type Job = Pow.State

  const BATCH: nat := 128
  const U64: nat := 0x1_0000_0000_0000_0000

  // ---- The work channel ----

  /** What a handle caches: which store it has seen and what that store put into the cell. */
  datatype Seen = Seen(version: nat, job: Option<Job>)

  /** When the pointers of two loads are equal; see `WatchSwap.PointersTellStores`. */
  predicate SamePointer(a: Seen, b: Seen) {
    a.version == b.version || (a.job.None? && b.job.None?)
  }

  // ---- One thread ----

  datatype Pc = Trying | Reporting | Refreshing | Stopped | SendFailed

  datatype Worker = Worker(state: Option<Job>, nonce: nat, cached: Seen, pc: Pc)

  /** `wait_for_change` came back with this load. */
  function Refilled(w: Worker, loaded: Seen): Worker {
    w.(cached := loaded, state := loaded.job)
  }

  function WithNonce(job: Job, nonce: nat): Job {
    job.(nonce := FromNat(nonce))
  }

  /** The block that an attempt finds. */
  ghost function Found(job: Job, blake2b: Blake2b): Option<Pow.Block>
  {
    match job.block.header
    case None => None
    case Some(header) =>
      var tried := Pow.Tried(header, job);
      if Pow.Verifies(tried, blake2b) then Some(job.block.(header := Some(tried))) else None
  }

  /** The job is a state made from the header of its own block. */
  ghost predicate GoodJob(job: Job, blake2b: Blake2b) {
    job.block.header.Some? && Pow.Valid(job, job.block.header.value, blake2b)
  }

  function NextNonce(nonce: nat): nat {
    (nonce + 1) % U64
  }

  /** After an attempt; the thread ends if a block was found and could not be sent. */
  function Attempted(w: Worker, unsent: bool): Worker
    requires w.state.Some?
  {
    var t := w.(state := Some(WithNonce(w.state.value, w.nonce)));
    if unsent then t.(pc := SendFailed)
    else t.(nonce := NextNonce(w.nonce), pc := if NextNonce(w.nonce) % BATCH == 0 then Reporting else Trying)
  }

  function Reported(w: Worker, shutdown: bool): Worker {
    w.(pc := if shutdown then Stopped else Refreshing)
  }

  /** `get_changed` loaded this. */
  function Refreshed(w: Worker, loaded: Seen): Worker {
    if SamePointer(w.cached, loaded) then w.(pc := Trying)
    else w.(pc := Trying, cached := loaded, state := loaded.job)
  }

  /** What the surroundings do during one turn of the loop. */
  datatype Surroundings = Surroundings(waited: Seen, sendFails: bool, shutdown: bool, loaded: Seen)

  ghost function Turned(w: Worker, e: Surroundings, blake2b: Blake2b): Worker
  {
    var ready := if w.state.None? then Refilled(w, e.waited) else w;
    if ready.state.None? then ready else
    var found := Found(WithNonce(ready.state.value, ready.nonce), blake2b);
    var tried := Attempted(ready, found.Some? && e.sendFails);
    if tried.pc != Reporting then tried else
    var reported := Reported(tried, e.shutdown);
    if reported.pc == Stopped then reported else Refreshed(reported, e.loaded)
  }

  ghost function FoundInTurn(w: Worker, e: Surroundings, blake2b: Blake2b): Option<Pow.Block>
  {
    var ready := if w.state.None? then Refilled(w, e.waited) else w;
    if ready.state.None? then None else Found(WithNonce(ready.state.value, ready.nonce), blake2b)
  }

  /** The block is the template with this nonce if its header then verifies, and there is none otherwise. */
  ghost predicate IsAttempt(job: Job, nonce: nat, block: Option<Pow.Block>, blake2b: Blake2b)
  {
    job.block.header.Some? &&
    var header := job.block.header.value.(nonce := FromNat(nonce));
    block == if Pow.Verifies(header, blake2b) then Some(Pow.Block(Some(header), job.block.body)) else None
  }

  /** At the end of a batch the thread takes what the channel holds, unless that is what it has cached; at any other
      time it keeps its job, with the nonce it tried. */
  predicate LooksAtChannel(e: Surroundings, job: Job, nonce: nat, seen: Seen, looks: bool, state: Option<Job>,
    cached: Seen)
  {
    if looks && e.loaded.version != seen.version && (e.loaded.job.Some? || seen.job.Some?)
    then state == e.loaded.job && cached == e.loaded
    else state == Some(job.(nonce := FromNat(nonce))) && cached == seen
  }

  /** The job of a turn is the one at hand or else what the wait brought; without either nothing is tried. */
  ghost predicate WorksOn(before: Option<Job>, cachedBefore: Seen, nonce: nat, e: Surroundings,
    block: Option<Pow.Block>, looks: bool, after: Option<Job>, cachedAfter: Seen, blake2b: Blake2b)
  {
    if before.Some? then
      && IsAttempt(before.value, nonce, block, blake2b)
      && LooksAtChannel(e, before.value, nonce, cachedBefore, looks, after, cachedAfter)
    else if e.waited.job.Some? then
      && IsAttempt(e.waited.job.value, nonce, block, blake2b)
      && LooksAtChannel(e, e.waited.job.value, nonce, e.waited, looks, after, cachedAfter)
    else block.None? && after.None? && cachedAfter == e.waited
  }

  /** The variables of the thread. */
  class MinerThread {
    var state: Option<Job>
    var nonce: nat
    var cached: Seen

    constructor (start: nat, channel: Seen)
      requires start < U64
      ensures state == None && nonce == start && cached == channel
    {
      state, nonce, cached := None, start, channel;
    }

    ghost function AsWorker(pc: Pc): Worker
      reads this
    {
      Worker(state, nonce, cached, pc)
    }

    /** One turn of the loop. */
    method Turn(e: Surroundings, ghost blake2b: Blake2b) returns (block: Option<Pow.Block>, counted: nat, pc: Pc)
      requires state.Some? ==> GoodJob(state.value, blake2b)
      requires e.waited.job.Some? ==> GoodJob(e.waited.job.value, blake2b)
      modifies this
      ensures pc == SendFailed <==> block.Some? && e.sendFails
      ensures pc == Stopped <==> (
        && (old(state.Some?) || e.waited.job.Some?) && !(block.Some? && e.sendFails)
        && (old(nonce) + 1) % 128 == 0 && e.shutdown)
      ensures pc == SendFailed || pc == Stopped || pc == Trying
      ensures nonce == if (old(state.Some?) || e.waited.job.Some?) && pc != SendFailed
        then (old(nonce) + 1) % 0x1_0000_0000_0000_0000 else old(nonce)
      ensures counted == if (old(state.Some?) || e.waited.job.Some?) && pc != SendFailed && (old(nonce) + 1) % 128 == 0
        then 128 else 0
      ensures WorksOn(old(state), old(cached), old(nonce), e, block, counted == 128 && pc == Trying, state, cached,
        blake2b)
      ensures AsWorker(pc) == Turned(old(AsWorker(Trying)), e, blake2b)
      ensures block == FoundInTurn(old(AsWorker(Trying)), e, blake2b)
    {
      hide Pow.Valid;
      hide Pow.Verifies;
      hide BitsOf;
      BatchEnds(nonce);
      block, counted, pc := None, 0, Trying;
      if state.None? {
        cached := e.waited;
        state := cached.job;
      }
      if state.None? {
        return;
      }
      ghost var h := state.value.block.header.value;
      ValidForAnyNonce(state.value, FromNat(nonce), h, blake2b);
      state := Some(state.value.(nonce := FromNat(nonce)));
      block := Pow.GenerateBlockIfPow(state.value, h, blake2b);
      if block.Some? && e.sendFails {
        pc := SendFailed;
        return;
      }
      nonce := (nonce + 1) % U64;
      if nonce % 128 == 0 {
        counted := 128;
        if e.shutdown {
          pc := Stopped;
          return;
        }
        if !SamePointer(cached, e.loaded) {
          cached := e.loaded;
          state := cached.job;
        }
      }
    }
  }

  lemma BatchEnds(n: nat)
    ensures (n + 1) % U64 % 128 == 0 <==> (n + 1) % 128 == 0
  {
  }

  lemma ValidForAnyNonce(job: Job, nonce: Word, h: Header, blake2b: Blake2b)
    requires Pow.Valid(job, h, blake2b)
    ensures Pow.Valid(job.(nonce := nonce), h, blake2b)
  {
  }

  // ---- All threads, the channel, the counter and the logger ----

  /** An attempt: its nonce, the store its template came from, the stores done by then, and what it found. */
  datatype Attempt = Attempt(nonce: nat, version: nat, stores: nat, found: Option<Pow.Block>)

  datatype Thread = Thread(start: nat, worker: Worker, attempts: seq<Attempt>)

  datatype System = System(threads: seq<Thread>, stores: seq<Option<Job>>, counter: nat, logged: nat)

  datatype Step =
    | Publish(job: Option<Job>)
    | Refill(i: nat)
    | Try(i: nat, sendFails: bool)
    | Report(i: nat, shutdown: bool)
    | Refresh(i: nat)
    | Log

  function Latest(s: System): Seen
    requires |s.stores| > 0
  {
    Seen(|s.stores| - 1, s.stores[|s.stores| - 1])
  }

  predicate Enabled(s: System, step: Step) {
    match step
    case Publish(job) => true
    case Log => true
    case Refill(i) =>
      && |s.stores| > 0 && i < |s.threads| && s.threads[i].worker.pc == Trying && s.threads[i].worker.state.None?
      && !SamePointer(s.threads[i].worker.cached, Latest(s))
    case Try(i, _) =>
      && i < |s.threads| && s.threads[i].worker.pc == Trying && s.threads[i].worker.state.Some?
      && s.threads[i].worker.state.value.block.header.Some?
    case Report(i, _) => i < |s.threads| && s.threads[i].worker.pc == Reporting
    case Refresh(i) => |s.stores| > 0 && i < |s.threads| && s.threads[i].worker.pc == Refreshing
  }

  ghost function AfterTry(t: Thread, sendFails: bool, stores: nat, blake2b: Blake2b): Thread
    requires t.worker.state.Some? && t.worker.state.value.block.header.Some?
  {
    var found := Found(WithNonce(t.worker.state.value, t.worker.nonce), blake2b);
    Thread(t.start, Attempted(t.worker, found.Some? && sendFails),
      t.attempts + [Attempt(t.worker.nonce, t.worker.cached.version, stores, found)])
  }

  function SetWorker(s: System, i: nat, w: Worker): System
    requires i < |s.threads|
  {
    s.(threads := s.threads[i := s.threads[i].(worker := w)])
  }

  ghost function Apply(s: System, step: Step, blake2b: Blake2b): System
    requires Enabled(s, step)
  {
    match step
    case Publish(job) => s.(stores := s.stores + [job])
    case Log => s.(logged := s.logged + s.counter, counter := 0)
    case Refill(i) => SetWorker(s, i, Refilled(s.threads[i].worker, Latest(s)))
    case Try(i, sendFails) => s.(threads := s.threads[i := AfterTry(s.threads[i], sendFails, |s.stores|, blake2b)])
    case Report(i, shutdown) =>
      SetWorker(s, i, Reported(s.threads[i].worker, shutdown)).(counter := (s.counter + BATCH) % U64)
    case Refresh(i) => SetWorker(s, i, Refreshed(s.threads[i].worker, Latest(s)))
  }

  predicate Starts(s: System) {
    && s.stores == [None] && s.counter == 0 && s.logged == 0
    && forall i | 0 <= i < |s.threads| ::
      var t := s.threads[i];
      t.start < U64 && t.worker == Worker(None, t.start, Seen(0, None), Trying) && t.attempts == []
  }

  /** A run on which only good jobs are published. */
  ghost predicate IsRun(systems: seq<System>, steps: seq<Step>, blake2b: Blake2b) {
    && |systems| == |steps| + 1 && Starts(systems[0])
    && forall i | 0 <= i < |steps| ::
      && Enabled(systems[i], steps[i]) && systems[i + 1] == Apply(systems[i], steps[i], blake2b)
      && (steps[i].Publish? && steps[i].job.Some? ==> GoodJob(steps[i].job.value, blake2b))
  }

  // ---- Work ----

  predicate IsStored(stores: seq<Option<Job>>, seen: Seen) {
    seen.version < |stores| && seen.job == stores[seen.version]
  }

  /** The thread works on the cached job, and has none exactly when the cached value is empty. */
  predicate HoldsCached(w: Worker) {
    match w.state
    case None => w.cached.job.None?
    case Some(job) => w.cached.job.Some? && job == w.cached.job.value.(nonce := job.nonce)
  }

  /** Attempts since the last look at the channel, at most; a full batch while it is being reported. */
  function SinceRefresh(w: Worker): nat {
    if w.pc == Reporting || w.pc == Refreshing || w.pc == Stopped then BATCH else w.nonce % BATCH
  }

  /** Attempts whose nonce was counted on. */
  function Completed(t: Thread): int {
    |t.attempts| - if t.worker.pc == SendFailed then 1 else 0
  }

  /** Work in progress is no older than any store that an attempt before the current batch could have seen. */
  ghost predicate UpToDate(t: Thread) {
    t.worker.state.Some? ==>
      forall i | 0 <= i < Completed(t) - SinceRefresh(t.worker) ::
        t.attempts[i].stores <= t.worker.cached.version + 1
  }

  ghost predicate AttemptsFollow(t: Thread, stores: nat) {
    && (forall i | 0 <= i < |t.attempts| ::
        t.attempts[i].nonce == (t.start + i) % U64 && t.attempts[i].version < t.attempts[i].stores <= stores)
    && (forall i, j | 0 <= i && i + BATCH <= j < |t.attempts| :: t.attempts[i].stores <= t.attempts[j].version + 1)
  }

  ghost predicate ThreadOk(t: Thread, stores: seq<Option<Job>>) {
    && IsStored(stores, t.worker.cached)
    && HoldsCached(t.worker)
    && t.worker.nonce == (t.start + Completed(t)) % U64 && Completed(t) >= 0
    && (t.worker.pc == Reporting || t.worker.pc == Refreshing || t.worker.pc == Stopped ==> t.worker.nonce % BATCH == 0)
    && UpToDate(t)
    && AttemptsFollow(t, |stores|)
  }

  lemma NextNonceMod(start: nat, done: nat)
    ensures NextNonce((start + done) % U64) == (start + (done + 1)) % U64
  {
  }

  lemma NextInBatch(n: nat)
    requires n < U64
    ensures NextNonce(n) % BATCH == if n % BATCH == BATCH - 1 then 0 else n % BATCH + 1
  {
  }

  lemma AttemptKeepsNonce(t: Thread, t': Thread, sendFails: bool, stores: nat, blake2b: Blake2b)
    requires t.worker.state.Some? && t.worker.state.value.block.header.Some?
    requires t.worker.pc == Trying && t.worker.nonce == (t.start + Completed(t)) % U64
    requires t' == AfterTry(t, sendFails, stores, blake2b)
    ensures t'.worker.nonce == (t.start + Completed(t')) % U64 && Completed(t') >= 0
    ensures t'.worker.cached == t.worker.cached && (HoldsCached(t.worker) ==> HoldsCached(t'.worker))
    ensures t'.worker.pc == Reporting ==> t'.worker.nonce % BATCH == 0
    ensures t'.worker.pc == Reporting || t'.worker.pc == Trying || t'.worker.pc == SendFailed
    ensures |t'.attempts| == |t.attempts| + 1
    ensures Completed(t') - SinceRefresh(t'.worker) == Completed(t) - SinceRefresh(t.worker)
  {
    hide Found;
    NextNonceMod(t.start, Completed(t));
    NextInBatch(t.worker.nonce);
    hide NextNonce;
  }

  lemma AttemptAppended(t: Thread, t': Thread, stores: nat, a: Attempt)
    requires AttemptsFollow(t, stores) && UpToDate(t) && t.worker.state.Some? && t.worker.pc == Trying
    requires t'.start == t.start && t'.attempts == t.attempts + [a]
    requires a.nonce == (t.start + |t.attempts|) % U64 && a.version == t.worker.cached.version < a.stores == stores
    ensures AttemptsFollow(t', stores)
  {
    assert SinceRefresh(t.worker) < BATCH && Completed(t) == |t.attempts|;
  }

  lemma StillUpToDate(t: Thread, t': Thread)
    requires UpToDate(t) && t.worker.state.Some? && t'.worker.cached == t.worker.cached
    requires |t'.attempts| > |t.attempts| && t'.attempts[..|t.attempts|] == t.attempts
    requires Completed(t') - SinceRefresh(t'.worker) == Completed(t) - SinceRefresh(t.worker)
    ensures UpToDate(t')
  {
    hide SinceRefresh;
    forall i | 0 <= i < Completed(t) - SinceRefresh(t.worker)
      ensures t'.attempts[i].stores <= t'.worker.cached.version + 1
    {
      assert t'.attempts[..|t.attempts|][i] == t.attempts[i];
    }
  }

  lemma TryKeepsThread(t: Thread, stores: seq<Option<Job>>, sendFails: bool, blake2b: Blake2b)
    requires ThreadOk(t, stores) && t.worker.pc == Trying
    requires t.worker.state.Some? && t.worker.state.value.block.header.Some?
    ensures ThreadOk(AfterTry(t, sendFails, |stores|, blake2b), stores)
  {
    hide UpToDate;
    hide AttemptsFollow;
    hide HoldsCached;
    hide SinceRefresh;
    hide Found;
    var t' := AfterTry(t, sendFails, |stores|, blake2b);
    AttemptKeepsNonce(t, t', sendFails, |stores|, blake2b);
    AttemptAppended(t, t', |stores|, t'.attempts[|t.attempts|]);
    assert t'.attempts[..|t.attempts|] == t.attempts;
    hide Attempted;
    StillUpToDate(t, t');
  }

  lemma RefillKeepsThread(t: Thread, stores: seq<Option<Job>>, loaded: Seen)
    requires ThreadOk(t, stores) && t.worker.pc == Trying && loaded.version == |stores| - 1 && IsStored(stores, loaded)
    ensures ThreadOk(t.(worker := Refilled(t.worker, loaded)), stores)
  {
  }

  lemma RefreshKeepsThread(t: Thread, stores: seq<Option<Job>>, loaded: Seen)
    requires ThreadOk(t, stores) && t.worker.pc == Refreshing
    requires loaded.version == |stores| - 1 && IsStored(stores, loaded)
    ensures ThreadOk(t.(worker := Refreshed(t.worker, loaded)), stores)
  {
  }

  lemma ReportKeepsThread(t: Thread, stores: seq<Option<Job>>, shutdown: bool)
    requires ThreadOk(t, stores) && t.worker.pc == Reporting
    ensures ThreadOk(t.(worker := Reported(t.worker, shutdown)), stores)
  {
  }

  lemma PublishKeepsThread(t: Thread, stores: seq<Option<Job>>, job: Option<Job>)
    requires ThreadOk(t, stores)
    ensures ThreadOk(t, stores + [job])
  {
  }

  ghost predicate Inv(s: System) {
    && |s.stores| > 0
    && forall i | 0 <= i < |s.threads| :: ThreadOk(s.threads[i], s.stores)
  }

  lemma StepKeepsThreads(s: System, step: Step, blake2b: Blake2b)
    requires Inv(s) && Enabled(s, step)
    ensures Inv(Apply(s, step, blake2b))
  {
    hide ThreadOk;
    match step
    case Publish(job) =>
      forall i | 0 <= i < |s.threads| ensures ThreadOk(s.threads[i], s.stores + [job]) {
        PublishKeepsThread(s.threads[i], s.stores, job);
      }
    case Refill(i) => RefillKeepsThread(s.threads[i], s.stores, Latest(s));
    case Try(i, sendFails) => TryKeepsThread(s.threads[i], s.stores, sendFails, blake2b);
    case Report(i, shutdown) => ReportKeepsThread(s.threads[i], s.stores, shutdown);
    case Refresh(i) => RefreshKeepsThread(s.threads[i], s.stores, Latest(s));
    case Log =>
  }

  lemma {:induction false} RunsKeepThreads(systems: seq<System>, steps: seq<Step>, k: nat, blake2b: Blake2b)
    requires IsRun(systems, steps, blake2b) && k < |systems|
    ensures Inv(systems[k])
  {
    hide Enabled;
    hide Apply;
    if k == 0 {
    } else {
      hide ThreadOk;
      hide GoodJob;
      RunsKeepThreads(systems, steps, k - 1, blake2b);
      StepKeepsThreads(systems[k - 1], steps[k - 1], blake2b);
    }
  }

  /** Attempt number j uses nonce start + j; a thread is without work exactly when its cached value is empty. */
  lemma NoncesAreConsecutive(systems: seq<System>, steps: seq<Step>, k: nat, i: nat, blake2b: Blake2b)
    requires IsRun(systems, steps, blake2b) && k < |systems| && i < |systems[k].threads|
    ensures var t := systems[k].threads[i];
      && (forall j | 0 <= j < |t.attempts| :: t.attempts[j].nonce == (t.start + j) % 0x1_0000_0000_0000_0000)
      && (t.worker.state.None? <==> t.worker.cached.job.None?)
  {
    RunsKeepThreads(systems, steps, k, blake2b);
    assert ThreadOk(systems[k].threads[i], systems[k].stores);
  }

  /** At most 128 attempts after a store use a template from before it. */
  lemma OldWorkEndsWithinABatch(systems: seq<System>, steps: seq<Step>, k: nat, i: nat, first: nat, last: nat,
    version: nat, blake2b: Blake2b)
    requires IsRun(systems, steps, blake2b) && k < |systems| && i < |systems[k].threads|
    requires first <= last < |systems[k].threads[i].attempts|
    requires version < systems[k].threads[i].attempts[first].stores
    requires systems[k].threads[i].attempts[last].version < version
    ensures last - first + 1 <= 128
  {
    RunsKeepThreads(systems, steps, k, blake2b);
    assert ThreadOk(systems[k].threads[i], systems[k].stores);
  }

  /** A wait that starts without work only comes back with work. */
  lemma WaitBringsWork(systems: seq<System>, steps: seq<Step>, k: nat, i: nat, blake2b: Blake2b)
    requires IsRun(systems, steps, blake2b) && k < |steps| && steps[k] == Refill(i)
    ensures i < |systems[k + 1].threads| && systems[k + 1].threads[i].worker.state.Some?
  {
    RunsKeepThreads(systems, steps, k, blake2b);
    assert Enabled(systems[k], steps[k]);
    assert ThreadOk(systems[k].threads[i], systems[k].stores);
  }

  // ---- The hash counter ----

  /** What a thread has added to the counter: its completed attempts, shifted to whole batches. */
  function Counted(t: Thread): int {
    Completed(t) + t.start % BATCH - t.worker.nonce % BATCH - if t.worker.pc == Reporting then BATCH else 0
  }

  function CountedByAll(threads: seq<Thread>): int {
    if threads == [] then 0 else Counted(threads[0]) + CountedByAll(threads[1..])
  }

  lemma {:induction false} OneCounts(threads: seq<Thread>, i: nat, t: Thread)
    requires i < |threads|
    ensures CountedByAll(threads[i := t]) == CountedByAll(threads) - Counted(threads[i]) + Counted(t)
  {
    hide Counted;
    if i == 0 {
      assert threads[i := t][1..] == threads[1..];
    } else {
      OneCounts(threads[1..], i - 1, t);
      assert threads[i := t][1..] == threads[1..][i - 1 := t];
    }
  }

  lemma TryCounts(t: Thread, stores: seq<Option<Job>>, sendFails: bool, blake2b: Blake2b)
    requires ThreadOk(t, stores) && t.worker.pc == Trying
    requires t.worker.state.Some? && t.worker.state.value.block.header.Some?
    ensures Counted(AfterTry(t, sendFails, |stores|, blake2b)) == Counted(t)
  {
    hide UpToDate;
    hide AttemptsFollow;
    hide HoldsCached;
    hide Found;
    NextInBatch(t.worker.nonce);
    hide NextNonce;
  }

  lemma StepCounts(s: System, step: Step, blake2b: Blake2b)
    requires Inv(s) && Enabled(s, step)
    ensures CountedByAll(Apply(s, step, blake2b).threads) == CountedByAll(s.threads) + if step.Report? then BATCH else 0
  {
    hide CountedByAll;
    hide AfterTry;
    match step
    case Publish(_) =>
    case Log =>
    case Refill(i) => OneCounts(s.threads, i, s.threads[i].(worker := Refilled(s.threads[i].worker, Latest(s))));
    case Try(i, sendFails) =>
      hide ThreadOk;
      TryCounts(s.threads[i], s.stores, sendFails, blake2b);
      hide Counted;
      OneCounts(s.threads, i, AfterTry(s.threads[i], sendFails, |s.stores|, blake2b));
    case Report(i, shutdown) =>
      OneCounts(s.threads, i, s.threads[i].(worker := Reported(s.threads[i].worker, shutdown)));
    case Refresh(i) => OneCounts(s.threads, i, s.threads[i].(worker := Refreshed(s.threads[i].worker, Latest(s))));
  }

  lemma {:induction false} NothingCounted(threads: seq<Thread>)
    requires forall i | 0 <= i < |threads| :: Counted(threads[i]) == 0
    ensures CountedByAll(threads) == 0
  {
    if threads == [] {
    } else {
      NothingCounted(threads[1..]);
    }
  }

  /** Logged and pending hashes are all completed attempts shifted to whole batches, up to laps of the 64-bit
      counter. */
  lemma {:induction false} NoHashIsLost(systems: seq<System>, steps: seq<Step>, k: nat, blake2b: Blake2b)
    returns (laps: nat)
    requires IsRun(systems, steps, blake2b) && k < |systems|
    ensures systems[k].counter < U64
    ensures systems[k].logged + systems[k].counter + laps * U64 == CountedByAll(systems[k].threads)
  {
    hide GoodJob;
    if k == 0 {
      NothingCounted(systems[0].threads);
      laps := 0;
    } else {
      laps := NoHashIsLost(systems, steps, k - 1, blake2b);
      RunsKeepThreads(systems, steps, k - 1, blake2b);
      laps := CounterStep(systems[k - 1], steps[k - 1], blake2b, laps);
    }
  }

  lemma CounterStep(s: System, step: Step, blake2b: Blake2b, before: nat) returns (laps: nat)
    requires Inv(s) && Enabled(s, step) && s.counter < U64
    requires s.logged + s.counter + before * U64 == CountedByAll(s.threads)
    ensures var s' := Apply(s, step, blake2b);
      s'.counter < U64 && s'.logged + s'.counter + laps * U64 == CountedByAll(s'.threads)
  {
    hide Inv;
    hide CountedByAll;
    hide AfterTry;
    StepCounts(s, step, blake2b);
    laps := if step.Report? && s.counter + BATCH >= U64 then before + 1 else before;
  }

  // ---- What is sent ----

  /** Each attempt finds a block exactly if the header of its template verifies with its nonce. */
  ghost predicate FindsRight(stores: seq<Option<Job>>, a: Attempt, blake2b: Blake2b) {
    && a.version < |stores| && stores[a.version].Some? && GoodJob(stores[a.version].value, blake2b)
    && a.found == Found(WithNonce(stores[a.version].value, a.nonce), blake2b)
  }

  ghost predicate Honest(s: System, blake2b: Blake2b) {
    && (forall v | 0 <= v < |s.stores| && s.stores[v].Some? :: GoodJob(s.stores[v].value, blake2b))
    && (forall i, j | 0 <= i < |s.threads| && 0 <= j < |s.threads[i].attempts| ::
        FindsRight(s.stores, s.threads[i].attempts[j], blake2b))
  }

  lemma TryFindsRight(t: Thread, sendFails: bool, stores: seq<Option<Job>>, blake2b: Blake2b)
    requires ThreadOk(t, stores)
    requires t.worker.state.Some? && t.worker.state.value.block.header.Some?
    requires forall v | 0 <= v < |stores| && stores[v].Some? :: GoodJob(stores[v].value, blake2b)
    ensures FindsRight(stores, AfterTry(t, sendFails, |stores|, blake2b).attempts[|t.attempts|], blake2b)
  {
    hide Found;
    hide GoodJob;
    hide UpToDate;
    hide AttemptsFollow;
    var stored := stores[t.worker.cached.version].value;
    assert WithNonce(stored, t.worker.nonce) == WithNonce(t.worker.state.value, t.worker.nonce);
  }

  lemma {:induction false} AttemptsAreHonest(systems: seq<System>, steps: seq<Step>, k: nat, blake2b: Blake2b)
    requires IsRun(systems, steps, blake2b) && k < |systems|
    ensures Honest(systems[k], blake2b)
  {
    hide GoodJob;
    if k == 0 {
    } else {
      AttemptsAreHonest(systems, steps, k - 1, blake2b);
      RunsKeepThreads(systems, steps, k - 1, blake2b);
      StepStaysHonest(systems[k - 1], steps[k - 1], blake2b);
    }
  }

  lemma StepStaysHonest(s: System, step: Step, blake2b: Blake2b)
    requires Inv(s) && Honest(s, blake2b) && Enabled(s, step)
    requires step.Publish? && step.job.Some? ==> GoodJob(step.job.value, blake2b)
    ensures Honest(Apply(s, step, blake2b), blake2b)
  {
    hide GoodJob;
    hide ThreadOk;
    hide Found;
    if step.Try? {
      TryFindsRight(s.threads[step.i], step.sendFails, s.stores, blake2b);
      hide FindsRight;
    }
  }

  /** Every block that a thread finds, on any run, verifies on its own. */
  lemma FoundBlocksVerify(systems: seq<System>, steps: seq<Step>, k: nat, i: nat, j: nat, blake2b: Blake2b)
    requires IsRun(systems, steps, blake2b) && k < |systems|
    requires i < |systems[k].threads| && j < |systems[k].threads[i].attempts|
    requires systems[k].threads[i].attempts[j].found.Some?
    ensures var header := systems[k].threads[i].attempts[j].found.value.header;
      header.Some? && Pow.Verifies(header.value, blake2b)
  {
    hide GoodJob;
    hide Pow.Verifies;
    AttemptsAreHonest(systems, steps, k, blake2b);
    assert FindsRight(systems[k].stores, systems[k].threads[i].attempts[j], blake2b);
  }

  /** What an attempt finds: the template with the nonce of the attempt if that verifies, else nothing. */
  lemma AttemptFindsVerifiedBlock(systems: seq<System>, steps: seq<Step>, k: nat, i: nat, j: nat, blake2b: Blake2b)
    requires IsRun(systems, steps, blake2b) && k < |systems|
    requires i < |systems[k].threads| && j < |systems[k].threads[i].attempts|
    ensures var a := systems[k].threads[i].attempts[j];
      && a.version < |systems[k].stores| && systems[k].stores[a.version].Some?
      && systems[k].stores[a.version].value.block.header.Some?
      && var block := systems[k].stores[a.version].value.block;
      var header := block.header.value.(nonce := FromNat(a.nonce));
      a.found == if Pow.Verifies(header, blake2b) then Some(Pow.Block(Some(header), block.body)) else None
  {
    hide Pow.Valid;
    hide Pow.Verifies;
    hide IsRun;
    AttemptsAreHonest(systems, steps, k, blake2b);
    assert FindsRight(systems[k].stores, systems[k].threads[i].attempts[j], blake2b);
  }

  // ---- When a thread moves on and when it stops ----

  /** The state of a thread after any step: a batch ends at a multiple of 128, is reported, and then either the thread
      stops, on a shutdown only, or it looks at the channel and goes on. */
  lemma PcFollows(s: System, step: Step, i: nat, blake2b: Blake2b)
    requires Enabled(s, step) && i < |s.threads|
    ensures var s' := Apply(s, step, blake2b);
      && |s'.threads| == |s.threads|
      && var t, t' := s.threads[i], s'.threads[i];
      && (step == Report(i, true) ==> t'.worker.pc == Stopped)
      && (step == Report(i, false) ==> t'.worker.pc == Refreshing)
      && (step == Refresh(i) || step == Refill(i) ==> t'.worker.pc == Trying)
      && (step.Try? && step.i == i ==>
          && |t'.attempts| == |t.attempts| + 1 && t'.attempts[..|t.attempts|] == t.attempts
          && t'.attempts[|t.attempts|].nonce == t.worker.nonce
          && t'.attempts[|t.attempts|].version == t.worker.cached.version
          && t'.attempts[|t.attempts|].stores == |s.stores|
          && t'.worker.pc == (
            if t'.attempts[|t.attempts|].found.Some? && step.sendFails then SendFailed
            else if (t.worker.nonce + 1) % 128 == 0 then Reporting else Trying))
      && (step.Publish? || step == Log || step.i != i ==> t' == t)
  {
    hide Found;
    BatchEnds(s.threads[i].worker.nonce);
  }

  /** A thread is stopped only by a report that saw the shutdown. */
  lemma {:induction false} StopsOnlyOnShutdown(systems: seq<System>, steps: seq<Step>, k: nat, i: nat, blake2b: Blake2b)
    returns (m: nat)
    requires IsRun(systems, steps, blake2b) && k < |systems| && i < |systems[k].threads|
    requires systems[k].threads[i].worker.pc == Stopped
    ensures m < k && steps[m] == Report(i, true)
  {
    hide GoodJob;
    hide Found;
    assert k > 0;
    var s, step := systems[k - 1], steps[k - 1];
    assert Enabled(s, step) && systems[k] == Apply(s, step, blake2b);
    hide IsRun;
    if step == Report(i, true) {
      m := k - 1;
    } else {
      StaysStopped(s, step, i, blake2b);
      m := StopsOnlyOnShutdown(systems, steps, k - 1, i, blake2b);
    }
  }

  lemma StaysStopped(s: System, step: Step, i: nat, blake2b: Blake2b)
    requires Enabled(s, step) && i < |Apply(s, step, blake2b).threads| && step != Report(i, true)
    requires Apply(s, step, blake2b).threads[i].worker.pc == Stopped
    ensures i < |s.threads| && s.threads[i].worker.pc == Stopped
  {
    hide Found;
    assert |Apply(s, step, blake2b).threads| == |s.threads|;
    PcFollows(s, step, i, blake2b);
    hide Apply;
  }

  /** What the other steps do to the channel and the counter. */
  lemma SharedFollows(s: System, step: Step, blake2b: Blake2b)
    requires Enabled(s, step)
    ensures var s' := Apply(s, step, blake2b);
      && s'.stores == (if step.Publish? then s.stores + [step.job] else s.stores)
      && s'.logged == (if step == Log then s.logged + s.counter else s.logged)
      && s'.counter == (if step == Log then 0
        else if step.Report? then (s.counter + 128) % 0x1_0000_0000_0000_0000 else s.counter)
  {
    hide Found;
  }

  /** The hashes that were logged or are pending, as any running total over the threads: completed attempts, plus the
      first nonce, minus the next nonce, each modulo 128, less a batch that is not reported yet. */
  lemma LoggedAndPending(systems: seq<System>, steps: seq<Step>, k: nat, totals: seq<int>, blake2b: Blake2b)
    returns (laps: nat)
    requires IsRun(systems, steps, blake2b) && k < |systems|
    requires |totals| == |systems[k].threads| + 1 && totals[|systems[k].threads|] == 0
    requires forall i | 0 <= i < |systems[k].threads| :: var t := systems[k].threads[i];
      totals[i] == totals[i + 1] + |t.attempts| - (if t.worker.pc == SendFailed then 1 else 0)
        + t.start % 128 - t.worker.nonce % 128 - (if t.worker.pc == Reporting then 128 else 0)
    ensures systems[k].logged + systems[k].counter + laps * 0x1_0000_0000_0000_0000 == totals[0]
  {
    hide IsRun;
    laps := NoHashIsLost(systems, steps, k, blake2b);
    TotalsFromBack(systems[k].threads, totals, 0);
    assert systems[k].threads[0..] == systems[k].threads;
  }

  lemma {:induction false} TotalsFromBack(threads: seq<Thread>, totals: seq<int>, n: nat)
    requires |totals| == |threads| + 1 && totals[|threads|] == 0 && n <= |threads|
    requires forall i | 0 <= i < |threads| :: totals[i] == totals[i + 1] + Counted(threads[i])
    ensures CountedByAll(threads[n..]) == totals[n]
    decreases |threads| - n
  {
    hide Counted;
    if n == |threads| {
    } else {
      TotalsFromBack(threads, totals, n + 1);
      assert threads[n..][1..] == threads[n + 1..];
    }
  }
}
