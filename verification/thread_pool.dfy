/**
 The pool of event-loop threads: starting and stopping over all interleavings of its
 worker threads with the thread that starts and stops it, and the round robin.
 */
module ThreadPools {
  import opened Common

  datatype Status = Starting | Running | Stopping | Stopped

  /** A worker: not created, created, in its loop before the start hook, with its start
      count, in its loop, out of its loop, with its exit count, done. */
  datatype Worker = Absent | Spawned | Latched | CountedIn(k: nat) | InLoop | LoopReturned | CountedOut(k: nat) | Done

  /** The controlling thread: in `start(true)` with `i` threads created, started, and in
      `stop(fn)` or `stop(true)` before each of its stores, having stopped `i` threads, or
      after it. */
  datatype Control =
    | Creating(i: nat)
    | IsStarted
    | StoringCallback
    | StoppingThreads(i: nat)
    | IsStopped

  datatype Pool = Pool(
    waits: bool,         // whether it is stopped by `stop(true)`, or by `stop(fn)`
    status: Status,
    control: Control,
    workers: seq<Worker>,
    started: nat,        // started_count
    exited: nat,         // exited_count
    callback: bool,      // whether the done callback is set
    runningStores: nat,  // how often a start hook stored kRunning
    exitStores: nat,     // how often an exit hook stored kStopped
    callbackRuns: nat)

  datatype Step =
    | Create                   // start: a thread, once the one before has started its loop
    | ObserveRunning           // start returns
    | StoreStopping | StoreCallback | StopThread | StoreStopped
    | Latch(w: nat)            // the loop runs the start handler
    | CountIn(w: nat)          // start hook: fetch_add
    | StartHook(w: nat)        // start hook: onThreadStarted
    | ReturnLoop(w: nat)       // the stopped loop returns
    | CountOut(w: nat)         // exit hook: fetch_add
    | ExitHook(w: nat)         // exit hook: onThreadExited

  ghost predicate Enabled(p: Pool, s: Step) {
    match s
    case Create =>
      p.control.Creating? && p.control.i < |p.workers| && p.workers[p.control.i].Absent?
      && (p.control.i > 0 ==> !p.workers[p.control.i - 1].Absent? && !p.workers[p.control.i - 1].Spawned?)
    case ObserveRunning => p.control == Creating(|p.workers|) && p.status == Running
    case StoreStopping => p.control == IsStarted
    case StoreCallback => p.control == StoringCallback
    case StopThread => p.control.StoppingThreads? && p.control.i < |p.workers|
    case StoreStopped => p.control == StoppingThreads(|p.workers|) && (p.waits ==> AllDone(p))
    case Latch(w) => w < |p.workers| && p.workers[w].Spawned?
    case CountIn(w) => w < |p.workers| && p.workers[w].Latched?
    case StartHook(w) => w < |p.workers| && p.workers[w].CountedIn?
    case ReturnLoop(w) => w < |p.workers| && p.workers[w].InLoop? && LoopStopped(p, w)
    case CountOut(w) => w < |p.workers| && p.workers[w].LoopReturned?
    case ExitHook(w) => w < |p.workers| && p.workers[w].CountedOut?
  }

  ghost predicate AllDone(p: Pool) {
    forall i | 0 <= i < |p.workers| :: p.workers[i].Done?
  }

  ghost predicate LoopStopped(p: Pool, w: nat) {
    p.control == IsStopped || (p.control.StoppingThreads? && w < p.control.i)
  }

  ghost function Next(p: Pool, s: Step): Pool
    requires Enabled(p, s)
  {
    match s
    case Create => p.(control := Creating(p.control.i + 1), workers := p.workers[p.control.i := Spawned])
    case ObserveRunning => p.(control := IsStarted)
    case StoreStopping => p.(control := StoringCallback, status := Stopping)
    case StoreCallback => p.(control := StoppingThreads(0), callback := !p.waits)
    case StopThread => p.(control := StoppingThreads(p.control.i + 1))
    case StoreStopped => p.(control := IsStopped, status := Stopped)
    case Latch(w) => p.(workers := p.workers[w := Latched])
    case CountIn(w) => p.(started := p.started + 1, workers := p.workers[w := CountedIn(p.started + 1)])
    case StartHook(w) =>
      var q := p.(workers := p.workers[w := InLoop]);
      if p.workers[w].k == |p.workers| then q.(status := Running, runningStores := p.runningStores + 1) else q
    case ReturnLoop(w) => p.(workers := p.workers[w := LoopReturned])
    case CountOut(w) => p.(exited := p.exited + 1, workers := p.workers[w := CountedOut(p.exited + 1)])
    case ExitHook(w) =>
      var q := p.(workers := p.workers[w := Done]);
      if p.workers[w].k != |p.workers| then q
      else q.(status := Stopped, exitStores := p.exitStores + 1, callback := false,
              callbackRuns := p.callbackRuns + if p.callback then 1 else 0)
  }

  // ---------------------------------------------------------------------
  // Counting workers
  // ---------------------------------------------------------------------

  /** How many workers satisfy f. */
  function Count(ws: seq<Worker>, f: Worker -> bool): (c: nat)
    ensures c <= |ws|
  {
    if ws == [] then 0 else (if f(ws[0]) then 1 else 0) + Count(ws[1..], f)
  }

  lemma {:induction false} CountUpdate(ws: seq<Worker>, w: nat, x: Worker, f: Worker -> bool)
    requires w < |ws|
    ensures Count(ws[w := x], f) == Count(ws, f) - (if f(ws[w]) then 1 else 0) + (if f(x) then 1 else 0)
  {
    if w == 0 {
      assert ws[0 := x][1..] == ws[1..];
    } else {
      assert ws[w := x][1..] == ws[1..][w - 1 := x];
      CountUpdate(ws[1..], w - 1, x, f);
    }
  }

  lemma {:induction false} CountAll(ws: seq<Worker>, f: Worker -> bool)
    requires Count(ws, f) == |ws|
    ensures forall i | 0 <= i < |ws| :: f(ws[i])
  {
    if ws != [] {
      CountAll(ws[1..], f);
    }
  }

  lemma {:induction false} CountEvery(ws: seq<Worker>, f: Worker -> bool)
    requires forall i | 0 <= i < |ws| :: f(ws[i])
    ensures Count(ws, f) == |ws|
  {
    if ws != [] {
      CountEvery(ws[1..], f);
    }
  }

  lemma {:induction false} CountNone(ws: seq<Worker>, f: Worker -> bool)
    requires forall i | 0 <= i < |ws| :: !f(ws[i])
    ensures Count(ws, f) == 0
  {
    if ws != [] {
      CountNone(ws[1..], f);
    }
  }

  lemma {:induction false} CountOne(ws: seq<Worker>, w: nat, f: Worker -> bool)
    requires w < |ws| && f(ws[w])
    ensures Count(ws, f) > 0
  {
    if w > 0 {
      CountOne(ws[1..], w - 1, f);
    }
  }

  /** Has run its start hook's count. */
  predicate HasCountedIn(w: Worker) { !w.Absent? && !w.Spawned? && !w.Latched? }

  /** Is past its start hook. */
  predicate HasStarted(w: Worker) { HasCountedIn(w) && !w.CountedIn? }

  predicate HasCountedOut(w: Worker) { w.CountedOut? || w.Done? }

  predicate LoopIsOver(w: Worker) { w.LoopReturned? || w.CountedOut? || w.Done? }

  /** Has drawn the last number, n, and not yet acted on it. */
  function LastIn(n: nat): Worker -> bool { (w: Worker) => w.CountedIn? && w.k == n }

  function LastOut(n: nat): Worker -> bool { (w: Worker) => w.CountedOut? && w.k == n }

  // ---------------------------------------------------------------------
  // The invariant
  // ---------------------------------------------------------------------

  predicate Begun(p: Pool) {
    && |p.workers| > 0 && p.status == Starting && p.control == Creating(0)
    && (forall i | 0 <= i < |p.workers| :: p.workers[i] == Absent)
    && p.started == p.exited == p.runningStores == p.exitStores == p.callbackRuns == 0 && !p.callback
  }

  /** The counters count; whoever draws the last number of one acts on it once. */
  ghost predicate CountersOk(p: Pool) {
    var n := |p.workers|;
    && n > 0
    && p.started == Count(p.workers, HasCountedIn)
    && p.exited == Count(p.workers, HasCountedOut)
    && p.runningStores + Count(p.workers, LastIn(n)) == (if p.started == n then 1 else 0)
    && p.exitStores + Count(p.workers, LastOut(n)) == (if p.exited == n then 1 else 0)
  }

  ghost predicate StopBegun(p: Pool) {
    !p.control.Creating? && p.control != IsStarted
  }

  /** Threads are created in order, and only while starting. */
  ghost predicate CreatedOk(p: Pool) {
    && (p.control.Creating? || p.control.StoppingThreads? ==> p.control.i <= |p.workers|)
    && (forall j | 0 <= j < |p.workers| :: p.workers[j].Absent? <==> p.control.Creating? && p.control.i <= j)
    && (p.control.Creating? ==> forall j | 0 <= j < p.control.i - 1 :: !p.workers[j].Spawned?)
  }

  /** `start` has returned only after kRunning was stored, which stands until a stop, and a
      stop is not undone. */
  ghost predicate ControlOk(p: Pool) {
    && (p.status == Running ==> p.runningStores == 1)
    && (p.runningStores == 1 && !StopBegun(p) ==> p.status == Running)
    && (!p.control.Creating? ==> p.runningStores == 1)
    && (StopBegun(p) ==> p.status != Running)
    && (forall i | 0 <= i < |p.workers| && LoopIsOver(p.workers[i]) :: LoopStopped(p, i))
    && (p.waits && p.control == IsStopped ==> AllDone(p))
  }

  ghost predicate CallbackStored(p: Pool) {
    p.control.StoppingThreads? || p.control == IsStopped
  }

  /** A done callback that was stored is still there or has run; the exit hook that draws
      the last number runs it. */
  ghost predicate CallbackOk(p: Pool) {
    && p.callbackRuns + (if p.callback then 1 else 0) == (if CallbackStored(p) && !p.waits then 1 else 0)
    && p.callbackRuns <= p.exitStores
    && (p.exitStores > 0 ==> !p.callback && p.status == Stopped)
  }

  ghost predicate Inv(p: Pool) {
    CountersOk(p) && CreatedOk(p) && ControlOk(p) && CallbackOk(p)
  }

  lemma BegunInv(p: Pool)
    requires Begun(p)
    ensures Inv(p)
  {
    CountNone(p.workers, HasCountedIn);
    CountNone(p.workers, HasCountedOut);
    CountNone(p.workers, LastIn(|p.workers|));
    CountNone(p.workers, LastOut(|p.workers|));
  }

  /** A worker's step changes each count by its own part only. */
  lemma WorkerStep(p: Pool, w: nat, x: Worker)
    requires w < |p.workers|
    ensures var n, ws, y := |p.workers|, p.workers[w := x], p.workers[w];
            && Count(ws, HasCountedIn) == Count(p.workers, HasCountedIn)
                 - (if HasCountedIn(y) then 1 else 0) + (if HasCountedIn(x) then 1 else 0)
            && Count(ws, HasCountedOut) == Count(p.workers, HasCountedOut)
                 - (if HasCountedOut(y) then 1 else 0) + (if HasCountedOut(x) then 1 else 0)
            && Count(ws, LastIn(n)) == Count(p.workers, LastIn(n))
                 - (if y == CountedIn(n) then 1 else 0) + (if x == CountedIn(n) then 1 else 0)
            && Count(ws, LastOut(n)) == Count(p.workers, LastOut(n))
                 - (if y == CountedOut(n) then 1 else 0) + (if x == CountedOut(n) then 1 else 0)
  {
    hide Count;
    CountUpdate(p.workers, w, x, HasCountedIn);
    CountUpdate(p.workers, w, x, HasCountedOut);
    CountUpdate(p.workers, w, x, LastIn(|p.workers|));
    CountUpdate(p.workers, w, x, LastOut(|p.workers|));
  }

  lemma CountersKept(p: Pool, s: Step)
    requires Inv(p) && Enabled(p, s)
    ensures CountersOk(Next(p, s))
  {
    match s {
      case Create => HookStepKept(p, s, p.control.i);
      case Latch(w) => HookStepKept(p, s, w);
      case CountIn(w) => CountStepKept(p, s, w);
      case StartHook(w) => HookStepKept(p, s, w);
      case ReturnLoop(w) => HookStepKept(p, s, w);
      case CountOut(w) => CountStepKept(p, s, w);
      case ExitHook(w) => HookStepKept(p, s, w);
      case _ =>
    }
  }

  lemma CountStepKept(p: Pool, s: Step, w: nat)
    requires Inv(p) && Enabled(p, s) && (s == CountIn(w) || s == CountOut(w))
    ensures CountersOk(Next(p, s))
  {
    hide Count, LastIn, LastOut;
    NotAllYet(p, w);
    WorkerStep(p, w, if s.CountIn? then CountedIn(p.started + 1) else CountedOut(p.exited + 1));
  }

  lemma HookStepKept(p: Pool, s: Step, w: nat)
    requires Inv(p) && Enabled(p, s)
    requires s in {Latch(w), StartHook(w), ReturnLoop(w), ExitHook(w)} || (s == Create && w == p.control.i)
    ensures CountersOk(Next(p, s))
  {
    hide Count, LastIn, LastOut;
    WorkerStep(p, w, Next(p, s).workers[w]);
  }

  /** A worker that still has to draw a number leaves the count below n. */
  lemma NotAllYet(p: Pool, w: nat)
    requires CountersOk(p) && w < |p.workers|
    ensures !HasCountedIn(p.workers[w]) ==> p.started < |p.workers|
    ensures !HasCountedOut(p.workers[w]) ==> p.exited < |p.workers|
  {
    if p.started == |p.workers| {
      CountAll(p.workers, HasCountedIn);
    }
    if p.exited == |p.workers| {
      CountAll(p.workers, HasCountedOut);
    }
  }

  lemma ControlKept(p: Pool, s: Step)
    requires Inv(p) && Enabled(p, s)
    ensures ControlOk(Next(p, s))
  {
    match s {
      case StartHook(w) =>
        if p.workers[w].k == |p.workers| {
          CountOne(p.workers, w, LastIn(|p.workers|));
        }
      case ExitHook(w) =>
        if p.workers[w].k == |p.workers| {
          CountOne(p.workers, w, LastOut(|p.workers|));
        }
      case _ =>
    }
  }

  lemma CreatedKept(p: Pool, s: Step)
    requires CreatedOk(p) && Enabled(p, s)
    ensures CreatedOk(Next(p, s))
  {
    match s {
      case Latch(w) => WorkerMoved(p, Next(p, s), w);
      case CountIn(w) => WorkerMoved(p, Next(p, s), w);
      case StartHook(w) => WorkerMoved(p, Next(p, s), w);
      case ReturnLoop(w) => WorkerMoved(p, Next(p, s), w);
      case CountOut(w) => WorkerMoved(p, Next(p, s), w);
      case ExitHook(w) => WorkerMoved(p, Next(p, s), w);
      case _ =>
    }
  }

  lemma WorkerMoved(p: Pool, q: Pool, w: nat)
    requires CreatedOk(p) && w < |p.workers| == |q.workers| && q.control == p.control
    requires q.workers == p.workers[w := q.workers[w]] && !p.workers[w].Absent?
    requires !q.workers[w].Absent? && !q.workers[w].Spawned?
    ensures CreatedOk(q)
  {
  }

  lemma CallbackKept(p: Pool, s: Step)
    requires Inv(p) && Enabled(p, s)
    ensures CallbackOk(Next(p, s))
  {
    hide Count;
    match s {
      case StoreStopping => NobodyOut(p);
      case StoreCallback => NobodyOut(p);
      case StartHook(w) => NotAllYet(p, w);
      case ExitHook(w) =>
        if p.workers[w].k == |p.workers| {
          CountOne(p.workers, w, LastOut(|p.workers|));
        }
      case _ =>
    }
  }

  /** Before the loops are stopped nobody has left. */
  lemma NobodyOut(p: Pool)
    requires Inv(p) && !CallbackStored(p)
    ensures p.exitStores == 0
  {
    if p.exited == |p.workers| {
      CountAll(p.workers, HasCountedOut);
    }
  }

  ghost predicate ValidRun(p: Pool, steps: seq<Step>)
    decreases |steps|
  {
    steps != [] ==> Enabled(p, steps[0]) && ValidRun(Next(p, steps[0]), steps[1..])
  }

  ghost function Run(p: Pool, steps: seq<Step>): Pool
    requires ValidRun(p, steps)
    decreases |steps|
  {
    if steps == [] then p else Run(Next(p, steps[0]), steps[1..])
  }

  /** What holds in every state that can be reached. */
  ghost predicate Safe(p: Pool) {
    // a thread is created when the one before runs its loop
    && (p.control.Creating? ==> p.control.i <= |p.workers| && forall j | 0 <= j < p.control.i - 1 ::
          !p.workers[j].Absent? && !p.workers[j].Spawned?)
    // kRunning is stored at most once, after every start hook has counted and before
    // `start` returns, and it has been stored when every start hook is past
    && p.runningStores <= 1
    && (p.runningStores == 1 ==> forall i | 0 <= i < |p.workers| :: HasCountedIn(p.workers[i]))
    && ((forall i | 0 <= i < |p.workers| :: HasStarted(p.workers[i])) ==> p.runningStores == 1)
    && (!p.control.Creating? ==> p.runningStores == 1)
    // from the last start hook to a stop the pool is running
    && ((forall i | 0 <= i < |p.workers| :: HasStarted(p.workers[i])) && !StopBegun(p) ==> p.status == Running)
    // a stop is never undone, and `stop(true)` returns when every worker is done
    && (StopBegun(p) ==> p.status != Running)
    && (p.waits && p.control == IsStopped ==> AllDone(p))
    // the done callback runs at most once, after every worker's loop has returned, and
    // has run when every worker is done
    && p.callbackRuns <= 1
    && (p.callbackRuns == 1 ==> forall i | 0 <= i < |p.workers| :: LoopIsOver(p.workers[i]))
    && (AllDone(p) ==> p.status == Stopped && p.callbackRuns == if p.waits then 0 else 1)
  }

  lemma InvIsSafe(p: Pool)
    requires Inv(p)
    ensures Safe(p)
  {
    hide Count;
    var n := |p.workers|;
    if p.runningStores == 1 {
      CountAll(p.workers, HasCountedIn);
    }
    if forall i | 0 <= i < n :: HasStarted(p.workers[i]) {
      CountEvery(p.workers, HasCountedIn);
      CountNone(p.workers, LastIn(n));
    }
    if p.exitStores == 1 {
      CountAll(p.workers, HasCountedOut);
    }
    if AllDone(p) {
      CountEvery(p.workers, HasCountedOut);
      CountNone(p.workers, LastOut(n));
      assert LoopIsOver(p.workers[0]);
    }
  }

  /** Over every interleaving. */
  lemma {:induction false} PoolSafety(p: Pool, steps: seq<Step>)
    requires (Begun(p) || Inv(p)) && ValidRun(p, steps)
    ensures Inv(Run(p, steps)) && Safe(Run(p, steps))
    decreases |steps|
  {
    if !Inv(p) {
      BegunInv(p);
    }
    if steps == [] {
      InvIsSafe(p);
    } else {
      NextKeeps(p, steps[0]);
      PoolSafety(Next(p, steps[0]), steps[1..]);
    }
  }

  // ---------------------------------------------------------------------
  // Progress
  // ---------------------------------------------------------------------

  /** The steps a worker has still to take. */
  function WorkerLeft(w: Worker): nat {
    match w
    case Absent => 7
    case Spawned => 6
    case Latched => 5
    case CountedIn(_) => 4
    case InLoop => 3
    case LoopReturned => 2
    case CountedOut(_) => 1
    case Done => 0
  }

  function WorkersLeft(ws: seq<Worker>): nat {
    if ws == [] then 0 else WorkerLeft(ws[0]) + WorkersLeft(ws[1..])
  }

  /** The steps the controlling thread has still to take, a stop included. */
  ghost function ControlLeft(p: Pool): int {
    var n := |p.workers|;
    match p.control
    case Creating(i) => (n - i) + n + 4
    case IsStarted => n + 3
    case StoringCallback => n + 2
    case StoppingThreads(i) => n - i + 1
    case IsStopped => 0
  }

  ghost function Left(p: Pool): int {
    WorkersLeft(p.workers) + ControlLeft(p)
  }

  lemma {:induction false} WorkersLeftUpdate(ws: seq<Worker>, w: nat, x: Worker)
    requires w < |ws|
    ensures WorkersLeft(ws[w := x]) == WorkersLeft(ws) - WorkerLeft(ws[w]) + WorkerLeft(x)
  {
    if w == 0 {
      assert ws[0 := x][1..] == ws[1..];
    } else {
      assert ws[w := x][1..] == ws[1..][w - 1 := x];
      WorkersLeftUpdate(ws[1..], w - 1, x);
    }
  }

  /** Every step is one of those left. */
  lemma StepTaken(p: Pool, s: Step)
    requires CreatedOk(p) && Enabled(p, s)
    ensures Left(Next(p, s)) < Left(p)
  {
    hide WorkersLeft, LoopStopped, AllDone;
    match s {
      case Create => WorkersLeftUpdate(p.workers, p.control.i, Spawned);
      case Latch(w) => WorkersLeftUpdate(p.workers, w, Latched);
      case CountIn(w) => WorkersLeftUpdate(p.workers, w, CountedIn(p.started + 1));
      case StartHook(w) => WorkersLeftUpdate(p.workers, w, InLoop);
      case ReturnLoop(w) => WorkersLeftUpdate(p.workers, w, LoopReturned);
      case CountOut(w) => WorkersLeftUpdate(p.workers, w, CountedOut(p.exited + 1));
      case ExitHook(w) => WorkersLeftUpdate(p.workers, w, Done);
      case _ =>
    }
  }

  /** Nothing can happen, unless somebody stops the pool. */
  ghost predicate AtRest(p: Pool) {
    forall s | Enabled(p, s) :: s == StoreStopping
  }

  /** A worker at rest has not been created, runs its loop, or is done. */
  lemma WorkerAtRest(p: Pool, w: nat)
    requires AtRest(p) && w < |p.workers|
    ensures p.workers[w].Absent? || p.workers[w].Done? || (p.workers[w].InLoop? && !LoopStopped(p, w))
  {
    assert !Enabled(p, Latch(w)) && !Enabled(p, CountIn(w)) && !Enabled(p, StartHook(w));
    assert !Enabled(p, ReturnLoop(w)) && !Enabled(p, CountOut(w)) && !Enabled(p, ExitHook(w));
  }

  /** The pool never gets stuck: at rest it has started, with `start` returned, running
      and every worker in its loop; or it has stopped, with every worker done. */
  lemma RestsStartedOrStopped(p: Pool)
    requires Inv(p) && AtRest(p)
    ensures if StopBegun(p) then p.control == IsStopped && p.status == Stopped && AllDone(p)
            else p.control == IsStarted && p.status == Running && forall w | 0 <= w < |p.workers| :: p.workers[w].InLoop?
  {
    hide Count;
    forall w | 0 <= w < |p.workers|
      ensures p.workers[w].Absent? || p.workers[w].Done? || (p.workers[w].InLoop? && !LoopStopped(p, w))
    {
      WorkerAtRest(p, w);
    }
    InvIsSafe(p);
    assert !Enabled(p, Create) && !Enabled(p, ObserveRunning) && !Enabled(p, StoreCallback);
    assert !Enabled(p, StopThread) && !Enabled(p, StoreStopped);
    if p.control.Creating? {
      StartGoesOn(p);
    }
  }

  /** With no worker on its way, `start` creates the next thread or returns. */
  lemma StartGoesOn(p: Pool)
    requires Inv(p) && p.control.Creating?
    requires forall w | 0 <= w < |p.workers| :: p.workers[w].Absent? || p.workers[w].Done? || p.workers[w].InLoop?
    ensures Enabled(p, Create) || Enabled(p, ObserveRunning)
  {
    hide Count;
    InvIsSafe(p);
    if p.control.i == |p.workers| {
      assert forall w | 0 <= w < |p.workers| :: HasStarted(p.workers[w]);
    }
  }

  /** Every run is finite.  One that cannot go on without a stop has returned from `start`
      with the pool running and every worker in its loop; one that cannot go on after a stop
      has every worker done, the pool stopped and its done callback, if any, run once. */
  lemma PoolCompletes(p: Pool, steps: seq<Step>)
    requires Begun(p) && ValidRun(p, steps)
    ensures |steps| <= Left(p)
    ensures var q := Run(p, steps);
            AtRest(q) ==>
              if StoreStopping in steps
              then q.control == IsStopped && q.status == Stopped && AllDone(q) && q.callbackRuns == (if q.waits then 0 else 1)
              else q.control == IsStarted && q.status == Running && forall w | 0 <= w < |q.workers| :: q.workers[w].InLoop?
  {
    hide *;
    BegunInv(p);
    BegunFacts(p);
    StepsTaken(p, steps);
    PoolSafety(p, steps);
    var q := Run(p, steps);
    SafeFacts(q);
    if AtRest(q) {
      RestsStartedOrStopped(q);
    }
  }

  lemma BegunFacts(p: Pool)
    requires Begun(p)
    ensures !StopBegun(p)
  {
  }

  lemma SafeFacts(p: Pool)
    requires Safe(p)
    ensures AllDone(p) ==> p.status == Stopped && p.callbackRuns == if p.waits then 0 else 1
  {
  }

  lemma {:induction false} StepsTaken(p: Pool, steps: seq<Step>)
    requires Inv(p) && ValidRun(p, steps)
    ensures |steps| <= Left(p)
    ensures StopBegun(Run(p, steps)) <==> StopBegun(p) || StoreStopping in steps
    decreases |steps|
  {
    hide *;
    RunCases(p, steps);
    if steps != [] {
      NextKeeps(p, steps[0]);
      StepTaken(p, steps[0]);
      StepsTaken(Next(p, steps[0]), steps[1..]);
      StopStep(p, steps[0]);
      assert steps == [steps[0]] + steps[1..];
    } else {
      LeftBound(p);
    }
  }

  lemma LeftBound(p: Pool)
    requires Inv(p)
    ensures Left(p) >= 0
  {
  }

  lemma RunCases(p: Pool, steps: seq<Step>)
    requires ValidRun(p, steps)
    ensures steps == [] ==> Run(p, steps) == p
    ensures steps != [] ==> Enabled(p, steps[0]) && ValidRun(Next(p, steps[0]), steps[1..])
                            && Run(p, steps) == Run(Next(p, steps[0]), steps[1..])
  {
  }

  lemma NextKeeps(p: Pool, s: Step)
    requires Inv(p) && Enabled(p, s)
    ensures Inv(Next(p, s)) && CreatedOk(p)
  {
    CountersKept(p, s);
    CreatedKept(p, s);
    ControlKept(p, s);
    CallbackKept(p, s);
  }

  lemma StopStep(p: Pool, s: Step)
    requires Enabled(p, s)
    ensures StopBegun(Next(p, s)) <==> StopBegun(p) || s == StoreStopping
  {
  }

  // ---------------------------------------------------------------------
  // Round robin
  // ---------------------------------------------------------------------

  function Occurrences(s: seq<nat>, i: nat): nat {
    if s == [] then 0 else Occurrences(s[..|s| - 1], i) + if s[|s| - 1] == i then 1 else 0
  }

  /** The threads 0 to n - 1 in turn. */
  ghost predicate InTurn(n: nat, choices: seq<nat>)
    requires n > 0
  {
    forall k | 0 <= k < |choices| :: choices[k] == k % n
  }

  /** A fair share of k choices: k / n, rounded down or up. */
  function Share(n: nat, i: nat, k: nat): nat
    requires n > 0
  {
    k / n + if i < k % n then 1 else 0
  }

  lemma ShareStep(n: nat, i: nat, k: nat)
    requires i < n
    ensures Share(n, i, 0) == 0
    ensures Share(n, i, k + 1) == Share(n, i, k) + if i == k % n then 1 else 0
  {
    DivStep(n, k);
  }

  /** Turns are fair. */
  lemma {:induction false} Fair(n: nat, choices: seq<nat>, i: nat)
    requires i < n && InTurn(n, choices)
    ensures Occurrences(choices, i) == Share(n, i, |choices|)
  {
    hide Share;
    var k := |choices| - 1;
    ShareStep(n, i, if choices == [] then 0 else k);
    if choices != [] {
      Fair(n, choices[..k], i);
    }
  }

  lemma DivStep(n: nat, k: nat)
    requires n > 0
    ensures if k % n == n - 1 then (k + 1) / n == k / n + 1 && (k + 1) % n == 0
            else (k + 1) / n == k / n && (k + 1) % n == k % n + 1
  {
    var q, r := k / n, k % n;
    assert k == q * n + r;
    if r == n - 1 {
      assert k + 1 == (q + 1) * n;
      QuotientUnique(n, k + 1, q + 1, 0);
    } else {
      QuotientUnique(n, k + 1, q, r + 1);
    }
  }

  lemma QuotientUnique(n: nat, k: nat, q: nat, r: nat)
    requires r < n && k == q * n + r
    ensures k / n == q && k % n == r
  {
    var a, b := k / n, k % n;
    assert k == a * n + b;
    assert (a - q) * n == r - b;
    if a > q {
      TimesAtLeast(a - q, n);
    } else if a < q {
      TimesAtLeast(q - a, n);
    }
  }

  class EventLoopThreadPool {
    const threads: nat
    var running: bool
    var next: nat
    ghost var choices: seq<nat>  // the threads chosen, in order

    constructor (threads: nat, running: bool)
      ensures Valid() && this.threads == threads && this.running == running && choices == []
    {
      this.threads, this.running, next := threads, running, 0;
      choices := [];
    }

    ghost predicate Valid()
      reads this
    {
      next == |choices| && if threads == 0 then choices == [] else InTurn(threads, choices)
    }

    /** The loop for a new connection: a thread of the pool, or -1, the base loop, when the
        pool is not running or has no threads.  Whatever calls came before, with the pool
        started and stopped in between, the choices made are spread evenly. */
    method GetNextLoop() returns (loop: int)
      requires Valid()
      modifies `next, `choices
      ensures Valid()
      ensures running && threads > 0 ==> 0 <= loop < threads && choices == old(choices) + [loop]
      ensures !running || threads == 0 ==> loop == -1 && choices == old(choices)
      ensures forall i | 0 <= i < threads ::
                Occurrences(choices, i) == Share(threads, i, |choices|)
    {
      loop := -1;
      if running && threads > 0 {
        loop := next % threads;
        next := next + 1;
        choices := choices + [loop];
      }
      forall i | 0 <= i < threads
        ensures Occurrences(choices, i) == Share(threads, i, |choices|)
      {
        Fair(threads, choices, i);
      }
    }

    /** Starting and stopping keep the turn. */
    method SetRunning(running: bool)
      requires Valid()
      modifies `running
      ensures Valid() && this.running == running
    {
      this.running := running;
    }
  }
}
