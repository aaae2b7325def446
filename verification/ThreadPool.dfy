/**
 * The thread pool as a step system: any number of workers and the main thread, interleaved at
 * every lock, unlock, wait, signal, push and pop.
 */
module ThreadPool {

  /** A task, named by the address of its argument. */
  type Task = nat

  /** Where a worker stands in its loop. */
  datatype Pc =
    | Start            // about to lock the mutex
    | Locked           // holding it, about to look at the queue
    | Waiting          // blocked on the condition variable, the mutex released
    | Woken            // woken up, about to lock the mutex again
    | Holding(task: Task) // holding the mutex and a popped task
    | Running(task: Task) // running it

  /** Where the main thread stands in thread_pool_queue. */
  datatype Main = Idle | Entered(task: Task) | Pushed | Signalling

  datatype Owner = Free | ByMain | ByWorker(i: nat)

  /** pushed, popped and finished record tasks in the order of those events. */
  datatype State = State(queue: seq<Task>, owner: Owner, workers: seq<Pc>, main: Main,
                            pushed: seq<Task>, popped: seq<Task>, finished: seq<Task>)

  ghost predicate Init(s: State) {
    && s.queue == [] && s.owner == Free && s.main == Idle && s.pushed == [] && s.popped == [] && s.finished == []
    && forall i :: 0 <= i < |s.workers| ==> s.workers[i] == Start
  }

  // ----- steps -----

  /** pthread_mutex_lock, on entry or on the way out of a wait. */
  ghost predicate WorkerLock(s: State, s': State, i: nat) {
    && i < |s.workers| && (s.workers[i].Start? || s.workers[i].Woken?) && s.owner.Free?
    && s' == s.(owner := ByWorker(i), workers := s.workers[i := Locked])
  }

  /** The queue is empty: release the mutex and wait, in one step. */
  ghost predicate WorkerWait(s: State, s': State, i: nat) {
    && i < |s.workers| && s.workers[i].Locked? && s.queue == []
    && s' == s.(owner := Free, workers := s.workers[i := Waiting])
  }

  /** The queue is not empty: take the first task. */
  ghost predicate WorkerPop(s: State, s': State, i: nat) {
    && i < |s.workers| && s.workers[i].Locked? && s.queue != []
    && s' == s.(queue := s.queue[1..], popped := s.popped + [s.queue[0]],
        workers := s.workers[i := Holding(s.queue[0])])
  }

  ghost predicate WorkerUnlock(s: State, s': State, i: nat) {
    && i < |s.workers| && s.workers[i].Holding?
    && s' == s.(owner := Free, workers := s.workers[i := Running(s.workers[i].task)])
  }

  ghost predicate WorkerFinish(s: State, s': State, i: nat) {
    && i < |s.workers| && s.workers[i].Running?
    && s' == s.(finished := s.finished + [s.workers[i].task], workers := s.workers[i := Start])
  }

  /** A wakeup that nobody signalled. */
  ghost predicate Spurious(s: State, s': State, i: nat) {
    i < |s.workers| && s.workers[i].Waiting? && s' == s.(workers := s.workers[i := Woken])
  }

  ghost predicate MainLock(s: State, s': State, task: Task) {
    s.main.Idle? && s.owner.Free? && s' == s.(owner := ByMain, main := Entered(task))
  }

  ghost predicate MainPush(s: State, s': State) {
    && s.main.Entered?
    && s' == s.(queue := s.queue + [s.main.task], pushed := s.pushed + [s.main.task], main := Pushed)
  }

  ghost predicate MainUnlock(s: State, s': State) {
    s.main.Pushed? && s' == s.(owner := Free, main := Signalling)
  }

  ghost predicate IsWaiting(ws: seq<Pc>, i: nat) {
    i < |ws| && ws[i].Waiting?
  }

  /** ws with the workers in woken woken up. */
  ghost function Wake(ws: seq<Pc>, woken: set<nat>): seq<Pc> {
    seq(|ws|, i requires 0 <= i < |ws| => if i in woken then Woken else ws[i])
  }

  /** pthread_cond_signal: wakes at least one waiting worker, if there is any. */
  ghost predicate MainSignal(s: State, s': State, woken: set<nat>) {
    && s.main.Signalling? && (forall i <- woken :: IsWaiting(s.workers, i))
    && ((exists i :: IsWaiting(s.workers, i)) ==> woken != {})
    && s' == s.(main := Idle, workers := Wake(s.workers, woken))
  }

  /** A step of a worker by its own doing. */
  ghost predicate WorkerStep(s: State, s': State) {
    exists i :: WorkerLock(s, s', i) || WorkerWait(s, s', i) || WorkerPop(s, s', i) ||
                WorkerUnlock(s, s', i) || WorkerFinish(s, s', i)
  }

  /** A step of the main thread, other than to begin queueing another task. */
  ghost predicate MainStep(s: State, s': State) {
    MainPush(s, s') || MainUnlock(s, s') || exists woken :: MainSignal(s, s', woken)
  }

  ghost predicate Next(s: State, s': State) {
    || WorkerStep(s, s') || MainStep(s, s')
    || (exists i :: Spurious(s, s', i)) || (exists task :: MainLock(s, s', task))
  }

  // ----- counting -----

  /** Awake and on the way to the queue: such a worker will look at it before it waits or runs. */
  predicate OnTheWay(pc: Pc) { pc.Start? || pc.Locked? || pc.Woken? }

  function Coming(ws: seq<Pc>): nat {
    if ws == [] then 0 else Coming(ws[..|ws| - 1]) + if OnTheWay(ws[|ws| - 1]) then 1 else 0
  }

  predicate Has(pc: Pc, t: Task) { (pc.Holding? || pc.Running?) && pc.task == t }

  /** How many workers have popped task t and not finished it. */
  function InHand(ws: seq<Pc>, t: Task): nat {
    if ws == [] then 0 else InHand(ws[..|ws| - 1], t) + if Has(ws[|ws| - 1], t) then 1 else 0
  }

  lemma {:induction false} ComingUpdate(ws: seq<Pc>, i: nat, pc: Pc)
    requires i < |ws|
    ensures Coming(ws[i := pc]) == Coming(ws) - (if OnTheWay(ws[i]) then 1 else 0) + (if OnTheWay(pc) then 1 else 0)
  {
    var n := |ws| - 1;
    if i < n {
      assert ws[i := pc][..n] == ws[..n][i := pc];
      ComingUpdate(ws[..n], i, pc);
    } else {
      assert ws[i := pc][..n] == ws[..n];
    }
  }

  lemma {:induction false} InHandUpdate(ws: seq<Pc>, i: nat, pc: Pc, t: Task)
    requires i < |ws|
    ensures InHand(ws[i := pc], t) == InHand(ws, t) - (if Has(ws[i], t) then 1 else 0) + (if Has(pc, t) then 1 else 0)
  {
    var n := |ws| - 1;
    if i < n {
      assert ws[i := pc][..n] == ws[..n][i := pc];
      InHandUpdate(ws[..n], i, pc, t);
    } else {
      assert ws[i := pc][..n] == ws[..n];
    }
  }

  /** Some worker of ws is among the woken. */
  ghost predicate Reached(ws: seq<Pc>, woken: set<nat>) { exists i :: i in woken && i < |ws| }

  lemma WakeStep(ws: seq<Pc>, woken: set<nat>)
    requires ws != []
    ensures Wake(ws, woken)[..|ws| - 1] == Wake(ws[..|ws| - 1], woken)
    ensures Reached(ws, woken) ==> Reached(ws[..|ws| - 1], woken) || |ws| - 1 in woken
  {
  }

  /** Waking waiting workers puts at least one of them on the way. */
  lemma {:induction false} WakeComing(ws: seq<Pc>, woken: set<nat>)
    requires forall i <- woken :: i < |ws| ==> ws[i].Waiting?
    ensures Coming(Wake(ws, woken)) >= Coming(ws) + if Reached(ws, woken) then 1 else 0
  {
    if ws != [] {
      WakeStep(ws, woken);
      WakeComing(ws[..|ws| - 1], woken);
    }
  }

  /** Waking waiting workers touches no task. */
  lemma {:induction false} WakeInHand(ws: seq<Pc>, woken: set<nat>, t: Task)
    requires forall i <- woken :: i < |ws| ==> ws[i].Waiting?
    ensures InHand(Wake(ws, woken), t) == InHand(ws, t)
  {
    if ws != [] {
      WakeStep(ws, woken);
      WakeInHand(ws[..|ws| - 1], woken, t);
    }
  }

  // ----- the invariant -----

  /** The mutex is held by exactly the thread that is inside. */
  ghost predicate Exclusive(s: State) {
    && (forall i :: 0 <= i < |s.workers| ==>
        (s.owner == ByWorker(i) <==> s.workers[i].Locked? || s.workers[i].Holding?))
    && (s.owner.ByWorker? ==> s.owner.i < |s.workers|)
    && (s.owner == ByMain <==> s.main.Entered? || s.main.Pushed?)
  }

  /** Signals that the main thread has still to send. */
  function Pending(s: State): nat { if s.main.Pushed? || s.main.Signalling? then 1 else 0 }

  /** No wakeup is lost: while a worker waits, every queued task has a worker coming or a signal pending. */
  ghost predicate NoneLost(s: State) {
    (exists i :: IsWaiting(s.workers, i)) ==> |s.queue| <= Coming(s.workers) + Pending(s)
  }

  function Count(ts: seq<Task>, t: Task): nat { multiset(ts)[t] }

  lemma CountAppend(ts: seq<Task>, x: Task, t: Task)
    ensures Count(ts + [x], t) == Count(ts, t) + if x == t then 1 else 0
  {
  }

  /** Tasks are popped in the order they were pushed, each once; a popped task is in hand or finished. */
  ghost predicate Fifo(s: State) {
    && s.pushed == s.popped + s.queue
    && forall t :: Count(s.popped, t) == Count(s.finished, t) + InHand(s.workers, t)
  }

  ghost predicate Inv(s: State) {
    Exclusive(s) && NoneLost(s) && Fifo(s)
  }

  lemma {:induction false} AllStart(ws: seq<Pc>, t: Task)
    requires forall i :: 0 <= i < |ws| ==> ws[i] == Start
    ensures InHand(ws, t) == 0
  {
    if ws != [] { AllStart(ws[..|ws| - 1], t); }
  }

  lemma InitInv(s: State)
    requires Init(s)
    ensures Inv(s)
  {
    forall t ensures Count(s.popped, t) == Count(s.finished, t) + InHand(s.workers, t) { AllStart(s.workers, t); }
  }

  // ----- every step keeps the invariant -----

  lemma NoneLostWorker(s: State, s': State, i: nat)
    requires NoneLost(s)
    requires WorkerLock(s, s', i) || WorkerWait(s, s', i) || WorkerPop(s, s', i) ||
             WorkerUnlock(s, s', i) || WorkerFinish(s, s', i)
    ensures NoneLost(s')
  {
    ComingUpdate(s.workers, i, s'.workers[i]);
    if j :| IsWaiting(s'.workers, j) {
      if !WorkerWait(s, s', i) { assert IsWaiting(s.workers, j); }
    }
  }

  lemma NoneLostOther(s: State, s': State)
    requires NoneLost(s) && !WorkerStep(s, s') && Next(s, s')
    ensures NoneLost(s')
  {
    hide WorkerStep;
    if i :| Spurious(s, s', i) {
      assert IsWaiting(s.workers, i);
      ComingUpdate(s.workers, i, Woken);
    } else if woken :| MainSignal(s, s', woken) {
      WakeComing(s.workers, woken);
      if j :| IsWaiting(s'.workers, j) {
        assert IsWaiting(s.workers, j);
        var i :| i in woken;
        assert IsWaiting(s.workers, i);
      }
    }
  }

  lemma FifoWorker(s: State, s': State, i: nat)
    requires Fifo(s)
    requires WorkerLock(s, s', i) || WorkerWait(s, s', i) || WorkerPop(s, s', i) ||
             WorkerUnlock(s, s', i) || WorkerFinish(s, s', i)
    ensures Fifo(s')
  {
    hide Count;
    if WorkerPop(s, s', i) { assert s.popped + s.queue == s.popped + [s.queue[0]] + s.queue[1..]; }
    forall t ensures Count(s'.popped, t) == Count(s'.finished, t) + InHand(s'.workers, t) {
      InHandUpdate(s.workers, i, s'.workers[i], t);
      if WorkerPop(s, s', i) { CountAppend(s.popped, s.queue[0], t); }
      if WorkerFinish(s, s', i) { CountAppend(s.finished, s.workers[i].task, t); }
    }
  }

  lemma FifoOther(s: State, s': State)
    requires Fifo(s) && !WorkerStep(s, s') && Next(s, s')
    ensures Fifo(s')
  {
    hide WorkerStep, Count;
    forall t ensures Count(s'.popped, t) == Count(s'.finished, t) + InHand(s'.workers, t) {
      if i :| Spurious(s, s', i) {
        InHandUpdate(s.workers, i, Woken, t);
      } else if woken :| MainSignal(s, s', woken) {
        WakeInHand(s.workers, woken, t);
      }
    }
    if MainPush(s, s') { assert s.popped + s.queue + [s.main.task] == s.popped + (s.queue + [s.main.task]); }
  }

  lemma ExclusiveWorker(s: State, s': State, i: nat)
    requires Exclusive(s)
    requires WorkerLock(s, s', i) || WorkerWait(s, s', i) || WorkerPop(s, s', i) ||
             WorkerUnlock(s, s', i) || WorkerFinish(s, s', i)
    ensures Exclusive(s')
  {
  }

  lemma ExclusiveOther(s: State, s': State)
    requires Exclusive(s) && !WorkerStep(s, s') && Next(s, s')
    ensures Exclusive(s')
  {
  }

  lemma NextKeeps(s: State, s': State)
    requires Inv(s) && Next(s, s')
    ensures Inv(s')
  {
    hide Exclusive, NoneLost, Fifo, Next;
    if WorkerStep(s, s') {
      var i :| WorkerLock(s, s', i) || WorkerWait(s, s', i) || WorkerPop(s, s', i) ||
               WorkerUnlock(s, s', i) || WorkerFinish(s, s', i);
      hide WorkerLock, WorkerWait, WorkerPop, WorkerUnlock, WorkerFinish;
      ExclusiveWorker(s, s', i);
      NoneLostWorker(s, s', i);
      FifoWorker(s, s', i);
    } else {
      ExclusiveOther(s, s');
      NoneLostOther(s, s');
      FifoOther(s, s');
    }
  }

  /** A run from the start, step by step. */
  ghost predicate Behaviour(run: seq<State>) {
    && run != [] && Init(run[0])
    && forall i :: 0 <= i < |run| - 1 ==> Next(run[i], run[i + 1])
  }

  /** Over every run, whatever the interleaving. */
  lemma {:induction false} AlwaysInv(run: seq<State>, k: nat)
    requires Behaviour(run) && k < |run|
    ensures Inv(run[k])
  {
    if k == 0 {
      InitInv(run[0]);
    } else {
      AlwaysInv(run, k - 1);
      assert Next(run[k - 1], run[(k - 1) + 1]);
      NextKeeps(run[k - 1], run[k]);
    }
  }

  // ----- every task is run -----

  /** Nothing is left to do but to queue another task, or to wake up for no reason. */
  ghost predicate Quiet(s: State) {
    forall s' :: !WorkerStep(s, s') && !MainStep(s, s')
  }

  function Effort(pc: Pc): nat {
    match pc
    case Waiting => 0
    case Locked => 2
    case Start => 3
    case Woken => 3
    case Running(_) => 4
    case Holding(_) => 5
  }

  function Efforts(ws: seq<Pc>): nat {
    if ws == [] then 0 else Efforts(ws[..|ws| - 1]) + Effort(ws[|ws| - 1])
  }

  /** What the main thread has ahead of it in the present call, the wakeups it may cause included. */
  function MainEffort(main: Main, n: nat): nat {
    match main
    case Idle => 0
    case Signalling => 3 * n + 1
    case Pushed => 3 * n + 2
    case Entered(_) => 3 * n + 9
  }

  function Measure(s: State): nat { 6 * |s.queue| + Efforts(s.workers) + MainEffort(s.main, |s.workers|) }

  lemma {:induction false} EffortsUpdate(ws: seq<Pc>, i: nat, pc: Pc)
    requires i < |ws|
    ensures Efforts(ws[i := pc]) == Efforts(ws) - Effort(ws[i]) + Effort(pc)
  {
    var n := |ws| - 1;
    if i < n {
      assert ws[i := pc][..n] == ws[..n][i := pc];
      EffortsUpdate(ws[..n], i, pc);
    } else {
      assert ws[i := pc][..n] == ws[..n];
    }
  }

  lemma {:induction false} WakeEfforts(ws: seq<Pc>, woken: set<nat>)
    ensures Efforts(Wake(ws, woken)) <= Efforts(ws) + 3 * |ws|
  {
    if ws != [] {
      WakeStep(ws, woken);
      WakeEfforts(ws[..|ws| - 1], woken);
    }
  }

  /** Left alone, the pool comes to rest: every step but those two kinds uses up some of the measure. */
  lemma StepsRunOut(s: State, s': State)
    requires WorkerStep(s, s') || MainStep(s, s')
    ensures Measure(s') < Measure(s)
  {
    if WorkerStep(s, s') {
      hide WorkerLock, WorkerWait, WorkerPop, WorkerUnlock, WorkerFinish, Measure;
      var i: nat :| WorkerLock(s, s', i) || WorkerWait(s, s', i) || WorkerPop(s, s', i) ||
                    WorkerUnlock(s, s', i) || WorkerFinish(s, s', i);
      WorkerEffort(s, s', i);
    } else if woken :| MainSignal(s, s', woken) {
      WakeEfforts(s.workers, woken);
    }
  }

  lemma WorkerEffort(s: State, s': State, i: nat)
    requires WorkerLock(s, s', i) || WorkerWait(s, s', i) || WorkerPop(s, s', i) ||
             WorkerUnlock(s, s', i) || WorkerFinish(s, s', i)
    ensures Measure(s') < Measure(s)
  {
    EffortsUpdate(s.workers, i, s'.workers[i]);
  }

  /** Inside thread_pool_queue the main thread can always take its next step. */
  lemma MainCanStep(s: State) returns (s': State)
    requires Exclusive(s) && !s.main.Idle?
    ensures MainStep(s, s')
  {
    if s.main.Entered? {
      s' := s.(queue := s.queue + [s.main.task], pushed := s.pushed + [s.main.task], main := Pushed);
      assert MainPush(s, s');
    } else if s.main.Pushed? {
      s' := s.(owner := Free, main := Signalling);
      assert MainUnlock(s, s');
    } else {
      var woken := if i :| IsWaiting(s.workers, i) then {i} else {};
      s' := s.(main := Idle, workers := Wake(s.workers, woken));
      assert MainSignal(s, s', woken);
    }
  }

  /** The worker that holds the mutex can always take its next step. */
  lemma OwnerCanStep(s: State) returns (s': State)
    requires Exclusive(s) && s.owner.ByWorker?
    ensures WorkerStep(s, s')
  {
    var i, ws := s.owner.i, s.workers;
    if ws[i].Holding? {
      s' := s.(owner := Free, workers := ws[i := Running(ws[i].task)]);
      assert WorkerUnlock(s, s', i);
    } else if s.queue == [] {
      s' := s.(owner := Free, workers := ws[i := Waiting]);
      assert WorkerWait(s, s', i);
    } else {
      s' := s.(queue := s.queue[1..], popped := s.popped + [s.queue[0]], workers := ws[i := Holding(s.queue[0])]);
      assert WorkerPop(s, s', i);
    }
  }

  /** With the mutex free, every worker that is not waiting can take its next step. */
  lemma WorkerCanStep(s: State, i: nat) returns (s': State)
    requires Exclusive(s) && s.owner.Free? && i < |s.workers| && !s.workers[i].Waiting?
    ensures WorkerStep(s, s')
  {
    var ws := s.workers;
    assert !ws[i].Locked? && !ws[i].Holding?;
    if ws[i].Running? {
      s' := s.(finished := s.finished + [ws[i].task], workers := ws[i := Start]);
      assert WorkerFinish(s, s', i);
    } else {
      s' := s.(owner := ByWorker(i), workers := ws[i := Locked]);
      assert WorkerLock(s, s', i);
    }
  }

  /** At rest the main thread is outside thread_pool_queue, and every worker waits. */
  lemma AtRest(s: State)
    requires Quiet(s) && Exclusive(s)
    ensures s.main.Idle? && s.owner.Free? && forall i :: 0 <= i < |s.workers| ==> s.workers[i].Waiting?
  {
    hide WorkerStep, MainStep;
    if !s.main.Idle? { var s' := MainCanStep(s); }
    if s.owner.ByWorker? { var s' := OwnerCanStep(s); }
    forall i | 0 <= i < |s.workers| ensures s.workers[i].Waiting? {
      if !s.workers[i].Waiting? { var s' := WorkerCanStep(s, i); }
    }
  }

  lemma {:induction false} AllWaiting(ws: seq<Pc>)
    requires forall i :: 0 <= i < |ws| ==> ws[i].Waiting?
    ensures Coming(ws) == 0 && forall t :: InHand(ws, t) == 0
  {
    if ws != [] { AllWaiting(ws[..|ws| - 1]); }
  }

  /** When a pool with a worker comes to rest, every task ever pushed has been popped in order, and run exactly once. */
  lemma AllTasksRun(run: seq<State>, k: nat)
    requires Behaviour(run) && k < |run| && Quiet(run[k]) && run[k].workers != []
    ensures var s := run[k];
            s.queue == [] && s.popped == s.pushed && forall t :: Count(s.finished, t) == Count(s.pushed, t)
  {
    hide Quiet, Count;
    var s := run[k];
    AlwaysInv(run, k);
    AtRest(s);
    assert IsWaiting(s.workers, 0);
    AllWaiting(s.workers);
    assert s.popped + [] == s.popped;
  }
}
