/**
 * ThreadPoolExecutor as a protocol.  Every section that holds `queue_mutex_`, every notification
 * and every return of a task is one atomic step; steps of different threads interleave freely.
 * A worker is ready (about to take the mutex and test the wait predicate), waiting on the
 * condition variable, running a task, or exited.  A submitter or a shutdown that has left its
 * critical section but not yet notified is an owed notification.
 */
module ThreadPool {
  import opened Options

  type Worker = nat

  datatype Pool<T> = Pool(
    size: nat,
    queue: seq<T>,
    shutdown: bool,
    ready: set<Worker>,
    waiting: set<Worker>,
    running: map<Worker, nat>,  // the task each runs, by its position in the order of submission
    exited: set<Worker>,
    owedOne: nat,               // submits that still have to call notify_one
    owedAll: nat,               // shutdowns that still have to call notify_all
    submitted: seq<T>,          // history: all tasks, in the order of submission
    taken: seq<T>,              // history: the tasks taken from the queue, in that order
    finished: set<nat>)         // history: the tasks that have returned, by position

  datatype Step<T> =
    | Push(task: T)                     // submit, critical section
    | NotifyOne(woken: Option<Worker>)  // submit, notification
    | Check(w: Worker)                  // worker: test the predicate; sleep, exit or take a task
    | Wake(w: Worker)                   // worker: spurious wake-up
    | Finish(w: Worker)                 // worker: the task returns
    | SetShutdown                       // shutdown or destructor, critical section
    | NotifyAll                         // shutdown or destructor, notification

  function Workers(size: nat): (r: set<Worker>)
    ensures forall w: Worker :: w in r <==> w < size
  {
    if size == 0 then {} else Workers(size - 1) + {size - 1}
  }

  function Init<T>(size: nat): Pool<T> {
    Pool(size, [], false, Workers(size), {}, map[], {}, 0, 0, [], [], {})
  }

  predicate Enabled<T>(s: Pool<T>, step: Step<T>) {
    match step
    case Push(_) => true
    case NotifyOne(None) => s.owedOne > 0 && s.waiting == {}
    case NotifyOne(Some(w)) => s.owedOne > 0 && w in s.waiting
    case Check(w) => w in s.ready
    case Wake(w) => w in s.waiting
    case Finish(w) => w in s.running
    case SetShutdown => true
    case NotifyAll => s.owedAll > 0
  }

  function Apply<T>(s: Pool<T>, step: Step<T>): Pool<T>
    requires Enabled(s, step)
  {
    match step
    case Push(task) => s.(queue := s.queue + [task], submitted := s.submitted + [task], owedOne := s.owedOne + 1)
    case NotifyOne(None) => s.(owedOne := s.owedOne - 1)
    case NotifyOne(Some(w)) => s.(owedOne := s.owedOne - 1, waiting := s.waiting - {w}, ready := s.ready + {w})
    case Check(w) =>
      if !s.shutdown && s.queue == [] then s.(ready := s.ready - {w}, waiting := s.waiting + {w})
      else if s.queue == [] then s.(ready := s.ready - {w}, exited := s.exited + {w})
      else s.(ready := s.ready - {w}, queue := s.queue[1..],
              taken := s.taken + [s.queue[0]], running := s.running[w := |s.taken|])
    case Wake(w) => s.(waiting := s.waiting - {w}, ready := s.ready + {w})
    case Finish(w) =>
      s.(running := s.running - {w}, ready := s.ready + {w}, finished := s.finished + {s.running[w]})
    case SetShutdown => s.(shutdown := true, owedAll := s.owedAll + 1)
    case NotifyAll => s.(owedAll := s.owedAll - 1, waiting := {}, ready := s.ready + s.waiting)
  }

  // A run: the state after the steps, if each was enabled in its turn
  function Execute<T>(s: Pool<T>, steps: seq<Step<T>>): Option<Pool<T>> {
    if steps == [] then Some(s)
    else
      match Execute(s, steps[..|steps| - 1])
      case Some(s') =>
        if Enabled(s', steps[|steps| - 1]) then Some(Apply(s', steps[|steps| - 1])) else None
      case None => None
  }

  // The executor object; each method is one step

  class ThreadPoolExecutor<T> {
    const poolSize: nat
    var shutdown: bool
    var workQueue: seq<T>
    // the threads and the condition variable
    var ready: set<Worker>
    var waiting: set<Worker>
    var running: map<Worker, nat>
    var exited: set<Worker>
    var owedOne: nat
    var owedAll: nat
    // history
    var submitted: seq<T>
    var taken: seq<T>
    var finished: set<nat>

    ghost function State(): Pool<T>
      reads this
    {
      Pool(poolSize, workQueue, shutdown, ready, waiting, running, exited, owedOne, owedAll, submitted, taken, finished)
    }

    constructor (poolSize: nat)
      ensures State() == Init(poolSize)
    {
      this.poolSize := poolSize;
      shutdown, workQueue := false, [];
      ready, waiting, running, exited := Workers(poolSize), {}, map[], {};
      owedOne, owedAll := 0, 0;
      submitted, taken, finished := [], [], {};
    }

    // The critical section of submit: it does not look at shutdown.
    method Push(task: T)
      modifies this
      ensures State() == Apply(old(State()), Step.Push(task))
    {
      workQueue := workQueue + [task];
      owedOne := owedOne + 1;
      submitted := submitted + [task];
    }

    method NotifyOne(woken: Option<Worker>)
      requires Enabled(State(), Step.NotifyOne(woken))
      modifies this
      ensures State() == Apply(old(State()), Step.NotifyOne(woken))
    {
      owedOne := owedOne - 1;
      if woken.Some? {
        waiting := waiting - {woken.value};
        ready := ready + {woken.value};
      }
    }

    // The worker's critical section: `wait` with its predicate, then exit or take the front.
    method Check(w: Worker)
      requires Enabled(State(), Step.Check(w))
      modifies this
      ensures State() == Apply(old(State()), Step.Check(w))
    {
      ready := ready - {w};
      if !(shutdown || workQueue != []) {
        waiting := waiting + {w};
        return;
      }
      if shutdown && workQueue == [] {
        exited := exited + {w};
        return;
      }
      running := running[w := |taken|];
      taken := taken + [workQueue[0]];
      workQueue := workQueue[1..];
    }

    method Wake(w: Worker)
      requires Enabled(State(), Step.Wake(w))
      modifies this
      ensures State() == Apply(old(State()), Step.Wake(w))
    {
      waiting := waiting - {w};
      ready := ready + {w};
    }

    method Finish(w: Worker)
      requires Enabled(State(), Step.Finish(w))
      modifies this
      ensures State() == Apply(old(State()), Step.Finish(w))
    {
      finished := finished + {running[w]};
      running := running - {w};
      ready := ready + {w};
    }

    method SetShutdown()
      modifies this
      ensures State() == Apply(old(State()), Step.SetShutdown)
    {
      shutdown := true;
      owedAll := owedAll + 1;
    }

    method NotifyAll()
      requires Enabled(State(), Step.NotifyAll)
      modifies this
      ensures State() == Apply(old(State()), Step.NotifyAll)
    {
      owedAll := owedAll - 1;
      ready := ready + waiting;
      waiting := {};
    }
  }

  // The invariant

  // Every worker is in exactly one stage.
  ghost predicate Staged<T>(s: Pool<T>) {
    && s.ready + s.waiting + s.running.Keys + s.exited == Workers(s.size)
    && s.ready !! s.waiting !! s.running.Keys !! s.exited
  }

  // First in, first out
  ghost predicate Fifo<T>(s: Pool<T>) {
    s.taken + s.queue == s.submitted
  }

  // A task taken from the queue is finished or being run by exactly one worker, never both.
  ghost predicate Once<T>(s: Pool<T>) {
    && (forall i :: i in s.finished ==> 0 <= i < |s.taken|)
    && (forall w :: w in s.running ==> s.running[w] < |s.taken| && s.running[w] !in s.finished)
    && (forall w, w' :: w in s.running && w' in s.running && w != w' ==> s.running[w] != s.running[w'])
    && (forall i :: 0 <= i < |s.taken| && i !in s.finished ==> exists w :: w in s.running && s.running[w] == i)
  }

  // While a worker sleeps, every queued task is matched by its own ready worker or owed
  // notification, and a shutdown is matched by an owed notify_all.
  ghost predicate NoLostWakeup<T>(s: Pool<T>) {
    && (s.waiting != {} ==> |s.queue| <= s.owedOne + |s.ready|)
    && (s.waiting != {} && s.shutdown ==> s.owedAll > 0)
  }

  // Workers exit, and a notify_all is owed, only after shutdown.
  ghost predicate OnlyInShutdown<T>(s: Pool<T>) {
    s.exited != {} || s.owedAll > 0 ==> s.shutdown
  }

  ghost predicate Inv<T>(s: Pool<T>) {
    Staged(s) && Fifo(s) && Once(s) && NoLostWakeup(s) && OnlyInShutdown(s)
  }

  lemma StepKeepsStaged<T>(s: Pool<T>, step: Step<T>)
    requires Staged(s) && Enabled(s, step)
    ensures Staged(Apply(s, step))
  {
  }

  lemma StepKeepsFifo<T>(s: Pool<T>, step: Step<T>)
    requires Fifo(s) && Enabled(s, step)
    ensures Fifo(Apply(s, step))
  {
    match step
    case Push(task) => assert s.taken + (s.queue + [task]) == s.submitted + [task];
    case Check(w) =>
      if s.queue != [] {
        assert s.taken + [s.queue[0]] + s.queue[1..] == s.taken + s.queue;
      }
    case _ =>
  }

  lemma TakeKeepsOnce<T>(s: Pool<T>, w: Worker)
    requires Staged(s) && Once(s) && w in s.ready && s.queue != []
    ensures Once(Apply(s, Step.Check(w)))
  {
    var s' := Apply(s, Step.Check(w));
    assert w !in s.running;
    hide Staged, Enabled;
    assert s'.finished == s.finished && |s'.taken| == |s.taken| + 1 && s'.running == s.running[w := |s.taken|];
    hide Apply;
    forall i | 0 <= i < |s'.taken| && i !in s'.finished
      ensures exists w' :: w' in s'.running && s'.running[w'] == i
    {
      if i == |s.taken| {
        assert w in s'.running && s'.running[w] == i;
      } else {
        var w' :| w' in s.running && s.running[w'] == i;
        assert w' in s'.running && s'.running[w'] == i;
      }
    }
  }

  lemma FinishKeepsOnce<T>(s: Pool<T>, w: Worker)
    requires Once(s) && w in s.running
    ensures Once(Apply(s, Step.Finish(w)))
  {
    var s' := Apply(s, Step.Finish(w));
    assert s'.finished == s.finished + {s.running[w]} && s'.taken == s.taken && s'.running == s.running - {w};
    hide Apply, Enabled;
    forall i | 0 <= i < |s'.taken| && i !in s'.finished
      ensures exists w' :: w' in s'.running && s'.running[w'] == i
    {
      var w' :| w' in s.running && s.running[w'] == i;
      assert w' in s'.running && s'.running[w'] == i;
    }
  }

  lemma StepKeepsOnce<T>(s: Pool<T>, step: Step<T>)
    requires Staged(s) && Once(s) && Enabled(s, step)
    ensures Once(Apply(s, step))
  {
    match step
    case Check(w) =>
      if s.queue != [] {
        TakeKeepsOnce(s, w);
      }
    case Finish(w) => FinishKeepsOnce(s, w);
    case _ =>
  }

  lemma StepKeepsWakeups<T>(s: Pool<T>, step: Step<T>)
    requires Staged(s) && NoLostWakeup(s) && Enabled(s, step)
    ensures NoLostWakeup(Apply(s, step))
  {
  }

  lemma StepKeepsOnlyInShutdown<T>(s: Pool<T>, step: Step<T>)
    requires OnlyInShutdown(s) && Enabled(s, step)
    ensures OnlyInShutdown(Apply(s, step))
  {
  }

  lemma StepKeepsInv<T>(s: Pool<T>, step: Step<T>)
    requires Inv(s) && Enabled(s, step)
    ensures Inv(Apply(s, step))
  {
    hide Staged, Fifo, Once, NoLostWakeup;
    StepKeepsStaged(s, step);
    StepKeepsFifo(s, step);
    StepKeepsOnce(s, step);
    StepKeepsWakeups(s, step);
    StepKeepsOnlyInShutdown(s, step);
  }

  lemma {:induction false} RunKeepsInv<T>(s: Pool<T>, steps: seq<Step<T>>)
    requires Inv(s) && Execute(s, steps).Some?
    ensures Inv(Execute(s, steps).value)
  {
    if steps != [] {
      RunKeepsInv(s, steps[..|steps| - 1]);
      StepKeepsInv(Execute(s, steps[..|steps| - 1]).value, steps[|steps| - 1]);
    }
  }

  lemma Reachable<T>(size: nat, steps: seq<Step<T>>)
    requires Execute(Init<T>(size), steps).Some?
    ensures Inv(Execute(Init<T>(size), steps).value)
  {
    RunKeepsInv(Init<T>(size), steps);
  }

  // One step of the executor object
  method Take<T>(pool: ThreadPoolExecutor<T>, step: Step<T>)
    requires Enabled(pool.State(), step)
    modifies pool
    ensures pool.State() == Apply(old(pool.State()), step)
  {
    match step
    case Push(task) => pool.Push(task);
    case NotifyOne(woken) => pool.NotifyOne(woken);
    case Check(w) => pool.Check(w);
    case Wake(w) => pool.Wake(w);
    case Finish(w) => pool.Finish(w);
    case SetShutdown => pool.SetShutdown();
    case NotifyAll => pool.NotifyAll();
  }

  /** Any run on the executor object: it keeps the invariant and ends in the state of the run. */
  method Replay<T>(size: nat, steps: seq<Step<T>>) returns (pool: ThreadPoolExecutor<T>)
    requires Execute(Init<T>(size), steps).Some?
    ensures fresh(pool) && pool.State() == Execute(Init<T>(size), steps).value && Inv(pool.State())
  {
    hide Apply, Enabled, Inv;
    pool := new ThreadPoolExecutor(size);
    for k := 0 to |steps|
      invariant fresh(pool) && Execute(Init<T>(size), steps[..k]) == Some(pool.State())
    {
      PrefixRuns(Init<T>(size), steps, k + 1);
      assert steps[..k + 1][..k] == steps[..k];
      Take(pool, steps[k]);
    }
    assert steps[..|steps|] == steps;
    Reachable(size, steps);
  }

  lemma {:induction false} PrefixRuns<T>(s: Pool<T>, steps: seq<Step<T>>, k: nat)
    requires k <= |steps| && Execute(s, steps).Some?
    ensures Execute(s, steps[..k]).Some?
    decreases |steps|
  {
    if k == |steps| {
      assert steps[..k] == steps;
    } else {
      PrefixRuns(s, steps[..|steps| - 1], k);
      assert steps[..|steps| - 1][..k] == steps[..k];
    }
  }

  function Live<T>(s: Pool<T>): set<Worker> {
    Workers(s.size) - s.exited
  }

  // Main results, for every pool size and every run

  /**
   * No lost wakeup: while the queue is not empty and some worker has not exited, a worker is
   * awake or a submitter still owes its notification; more, while any worker sleeps the ready
   * workers and owed notifications are at least as many as the queued tasks.  After shutdown a
   * sleeping worker is still owed a notify_all.
   */
  lemma NoWakeupIsLost<T>(size: nat, steps: seq<Step<T>>)
    requires Execute(Init<T>(size), steps).Some?
    ensures var s := Execute(Init<T>(size), steps).value;
            && (s.queue != [] && Live(s) != {} ==> s.ready + s.running.Keys != {} || s.owedOne > 0)
            && (s.waiting != {} ==> |s.queue| <= s.owedOne + |s.ready|)
            && (s.shutdown && s.waiting != {} ==> s.owedAll > 0)
  {
    Reachable(size, steps);
    var s := Execute(Init<T>(size), steps).value;
    if s.ready + s.running.Keys == {} && Live(s) != {} {
      var w :| w in Live(s);
      assert w in s.ready + s.waiting + s.running.Keys + s.exited;
      assert s.ready == {};
    }
  }

  /**
   * First in, first out, exactly once: the tasks taken so far, followed by the queue, are the
   * tasks in the order of submission; each taken task has finished or is being run by one worker,
   * and a step that takes a task takes one that nobody has run.
   */
  lemma TakenInOrderAndOnce<T>(size: nat, steps: seq<Step<T>>)
    requires Execute(Init<T>(size), steps).Some?
    ensures var s := Execute(Init<T>(size), steps).value;
            && s.taken + s.queue == s.submitted
            && (forall i :: 0 <= i < |s.taken| ==>
                  (i in s.finished <==> forall w :: w in s.running ==> s.running[w] != i))
            && (forall w, w' :: w in s.running && w' in s.running && w != w' ==> s.running[w] != s.running[w'])
            && s.finished + s.running.Values == Workers(|s.taken|)
  {
    Reachable(size, steps);
    var s := Execute(Init<T>(size), steps).value;
    forall i ensures i in s.finished + s.running.Values <==> i in Workers(|s.taken|) {
      if i in Workers(|s.taken|) && i !in s.finished {
        var w :| w in s.running && s.running[w] == i;
      }
    }
  }

  /**
   * Nobody is ever blocked for good: submits and shutdowns can always go on, an owed notification
   * can be paid, notify_one waking any one sleeper, and every live worker has a step to take.
   */
  lemma EveryThreadCanGoOn<T>(size: nat, steps: seq<Step<T>>, task: T, w: Worker)
    requires Execute(Init<T>(size), steps).Some?
    ensures var s := Execute(Init<T>(size), steps).value;
            && Enabled(s, Step.Push(task)) && Enabled(s, Step<T>.SetShutdown)
            && (s.owedAll > 0 ==> Enabled(s, Step<T>.NotifyAll))
            && (s.owedOne > 0 && w in s.waiting ==> Enabled(s, Step<T>.NotifyOne(Some(w))))
            && (s.owedOne > 0 && s.waiting == {} ==> Enabled(s, Step<T>.NotifyOne(None)))
            && (w in Live(s) ==>
                  Enabled(s, Step<T>.Check(w)) || Enabled(s, Step<T>.Wake(w)) || Enabled(s, Step<T>.Finish(w)))
  {
    Reachable(size, steps);
    var s := Execute(Init<T>(size), steps).value;
    assert w in Live(s) ==> w in s.ready + s.waiting + s.running.Keys + s.exited;
  }

  // Working through the queue, with no shutdown

  // The steps left while no thread submits or shuts down, spurious wake-ups aside
  predicate Working<T>(step: Step<T>) {
    !step.Push? && !step.SetShutdown? && !step.Wake?
  }

  function WorkLeft<T>(s: Pool<T>): nat {
    2 * |s.queue| + 2 * |s.running| + |s.ready| + 2 * s.owedOne
  }

  // What taking and finishing a task do to the sizes

  lemma TakeCounts<T>(s: Pool<T>, w: Worker)
    requires Staged(s) && w in s.ready && s.queue != []
    ensures var s' := Apply(s, Step.Check(w));
            |s'.queue| == |s.queue| - 1 && |s'.ready| == |s.ready| - 1 && |s'.running| == |s.running| + 1
  {
    var s' := Apply(s, Step.Check(w));
    assert s'.running.Keys == s.running.Keys + {w};
    assert |s'.running| == |s'.running.Keys| && |s.running| == |s.running.Keys|;
  }

  lemma FinishCounts<T>(s: Pool<T>, w: Worker)
    requires Staged(s) && w in s.running
    ensures var s' := Apply(s, Step.Finish(w));
            |s'.ready| == |s.ready| + 1 && |s'.running| == |s.running| - 1
  {
    var s' := Apply(s, Step.Finish(w));
    assert s'.running.Keys == s.running.Keys - {w};
    assert |s'.running| == |s'.running.Keys| && |s.running| == |s.running.Keys|;
  }

  lemma WorkingStep<T>(s: Pool<T>, step: Step<T>)
    requires Inv(s) && !s.shutdown && Enabled(s, step) && Working(step)
    ensures WorkLeft(Apply(s, step)) < WorkLeft(s)
    ensures !Apply(s, step).shutdown && Apply(s, step).submitted == s.submitted
  {
    hide Fifo, Once, NoLostWakeup;
    match step
    case NotifyOne(Some(w)) =>
    case Check(w) =>
      if s.queue != [] {
        TakeCounts(s, w);
      }
    case Finish(w) => FinishCounts(s, w);
    case _ =>
  }

  lemma {:induction false} WorkBound<T>(s: Pool<T>, after: seq<Step<T>>)
    requires Inv(s) && !s.shutdown && Execute(s, after).Some?
    requires forall k :: 0 <= k < |after| ==> Working(after[k])
    ensures |after| + WorkLeft(Execute(s, after).value) <= WorkLeft(s)
    ensures !Execute(s, after).value.shutdown && Execute(s, after).value.submitted == s.submitted
  {
    hide Inv, Apply, Enabled, WorkLeft, Working;
    if after != [] {
      var earlier := after[..|after| - 1];
      WorkBound(s, earlier);
      RunKeepsInv(s, earlier);
      WorkingStep(Execute(s, earlier).value, after[|after| - 1]);
    }
  }

  // No thread has anything to do.
  ghost predicate Idle<T(!new)>(s: Pool<T>) {
    forall step: Step<T> :: Working(step) ==> !Enabled(s, step)
  }

  lemma IdleMeansAsleep<T(!new)>(s: Pool<T>)
    requires Inv(s) && !s.shutdown
    ensures Idle(s) <==> s.waiting == Workers(s.size) && s.owedOne == 0
    ensures Idle(s) && s.size > 0 ==> s.queue == [] && s.finished == Workers(|s.submitted|)
  {
    hide Staged, Fifo, Once, NoLostWakeup, Idle;
    if Idle(s) {
      IdleWorkersSleep(s);
      NothingIsOwed(s);
    }
    if s.waiting == Workers(s.size) && s.owedOne == 0 {
      AllAsleep(s);
      SleepersAreIdle(s);
    }
  }

  lemma IdleWorkersSleep<T(!new)>(s: Pool<T>)
    requires Inv(s) && Idle(s) && s.exited == {}
    ensures s.waiting == Workers(s.size)
  {
    hide Fifo, Once, NoLostWakeup;
    forall w ensures w in s.waiting <==> w in Workers(s.size) {
      assert w in Workers(s.size) <==> w in s.ready + s.waiting + s.running.Keys + s.exited;
      assert !Enabled(s, Step<T>.Check(w)) && !Enabled(s, Step<T>.Finish(w));
    }
  }

  lemma NothingIsOwed<T(!new)>(s: Pool<T>)
    requires Idle(s)
    ensures s.owedOne == 0
  {
    if s.waiting == {} {
      assert !Enabled(s, Step<T>.NotifyOne(None));
    } else {
      var w :| w in s.waiting;
      assert !Enabled(s, Step<T>.NotifyOne(Some(w)));
    }
  }

  lemma SleepersAreIdle<T(!new)>(s: Pool<T>)
    requires s.ready == s.running.Keys == {} && s.owedOne == s.owedAll == 0
    ensures Idle(s)
  {
  }

  lemma AllAsleep<T>(s: Pool<T>)
    requires Inv(s) && s.waiting == Workers(s.size) && s.owedOne == 0
    ensures s.ready == s.running.Keys == {}
    ensures !s.shutdown ==> s.owedAll == 0
    ensures s.size > 0 ==> s.queue == [] && s.finished == Workers(|s.submitted|)
  {
    assert s.ready <= Workers(s.size) && s.running.Keys <= Workers(s.size);
    if s.size > 0 {
      assert 0 in s.waiting;
      assert s.running == map[] && s.taken == s.submitted;
      forall i ensures i in s.finished <==> i in Workers(|s.submitted|) {
      }
    }
  }

  /**
   * The pool does its work without being shut down: from any reachable state, when no thread
   * submits or shuts down and nobody wakes spuriously, a run has at most WorkLeft steps.  Where it
   * can go no further every worker sleeps, and if there is one, the queue is empty and every task
   * has been run.
   */
  lemma WorkGetsDone<T(!new)>(size: nat, before: seq<Step<T>>, after: seq<Step<T>>)
    requires Execute(Init<T>(size), before).Some? && !Execute(Init<T>(size), before).value.shutdown
    requires Execute(Init<T>(size), before + after).Some?
    requires forall k :: 0 <= k < |after| ==> Working(after[k])
    ensures var s, s' := Execute(Init<T>(size), before).value, Execute(Init<T>(size), before + after).value;
            && |after| <= WorkLeft(s) && s'.submitted == s.submitted
            && (Idle(s') <==> s'.waiting == Workers(size) && s'.owedOne == 0)
            && (Idle(s') && size > 0 ==> s'.queue == [] && s'.finished == Workers(|s'.submitted|))
  {
    hide Inv, Idle;
    var s := Execute(Init<T>(size), before).value;
    ExecuteSplits(Init<T>(size), before, after);
    Reachable(size, before);
    Reachable(size, before + after);
    WorkBound(s, after);
    RunGrows(Init<T>(size), before + after, 0);
    assert (before + after)[..0] == [];
    IdleMeansAsleep(Execute(s, after).value);
  }

  // Shutting down

  // The steps left once shutdown is set and no thread submits or shuts down again
  predicate Draining<T>(step: Step<T>) {
    !step.Push? && !step.SetShutdown?
  }

  function Measure<T>(s: Pool<T>): nat {
    2 * |s.queue| + 3 * |s.waiting| + 2 * |s.ready| + 3 * |s.running| + s.owedOne + s.owedAll
  }

  lemma UnionSize(a: set<Worker>, b: set<Worker>)
    requires a !! b
    ensures |a + b| == |a| + |b|
  {
  }

  lemma MeasureDrops<T>(s: Pool<T>, step: Step<T>)
    requires Staged(s) && s.shutdown && Enabled(s, step) && Draining(step)
    ensures Measure(Apply(s, step)) < Measure(s) && Apply(s, step).shutdown
  {
    match step
    case NotifyOne(None) =>
    case NotifyOne(Some(w)) => AwakeIsLess(s, w);
    case Wake(w) => AwakeIsLess(s, w);
    case NotifyAll => UnionSize(s.ready, s.waiting);
    case Finish(w) => FinishCounts(s, w);
    case Check(w) =>
      if s.queue != [] {
        TakeCounts(s, w);
      }
  }

  lemma AwakeIsLess<T>(s: Pool<T>, w: Worker)
    requires Staged(s) && w in s.waiting
    ensures |s.ready + {w}| == |s.ready| + 1 && |s.waiting - {w}| == |s.waiting| - 1
  {
  }

  // While a worker lives, some step can be taken without relying on spurious wake-ups.
  lemma Progress<T>(s: Pool<T>) returns (step: Step<T>)
    requires Inv(s) && s.shutdown && Live(s) != {}
    ensures Enabled(s, step) && Draining(step) && !step.Wake?
  {
    var w :| w in Live(s);
    assert w in s.ready + s.waiting + s.running.Keys + s.exited;
    if w in s.ready {
      step := Step.Check(w);
    } else if w in s.running {
      step := Step.Finish(w);
    } else {
      step := Step.NotifyAll;
    }
  }

  lemma DrainStep<T>(s: Pool<T>, step: Step<T>)
    requires Inv(s) && s.shutdown && Enabled(s, step) && Draining(step)
    ensures Measure(Apply(s, step)) < Measure(s)
    ensures Apply(s, step).shutdown && Apply(s, step).submitted == s.submitted
  {
    MeasureDrops(s, step);
    hide Measure, Staged;
  }

  lemma {:induction false} DrainBound<T>(s: Pool<T>, after: seq<Step<T>>)
    requires Inv(s) && s.shutdown && Execute(s, after).Some?
    requires forall k :: 0 <= k < |after| ==> Draining(after[k])
    ensures |after| + Measure(Execute(s, after).value) <= Measure(s)
    ensures Execute(s, after).value.shutdown && Execute(s, after).value.submitted == s.submitted
  {
    hide Inv, Apply, Enabled, Measure, Draining;
    if after != [] {
      var earlier := after[..|after| - 1];
      DrainBound(s, earlier);
      RunKeepsInv(s, earlier);
      DrainStep(Execute(s, earlier).value, after[|after| - 1]);
    }
  }

  // A worker exits only when the queue is empty, so the last one to exit leaves nothing behind.
  lemma LastExit<T>(s: Pool<T>, step: Step<T>)
    requires Inv(s) && Enabled(s, step) && Live(s) != {} && Live(Apply(s, step)) == {}
    ensures var s' := Apply(s, step); s'.queue == [] && s'.finished == Workers(|s'.submitted|)
  {
    hide Staged, Once, NoLostWakeup;
    var s' := Apply(s, step);
    StepKeepsInv(s, step);
    AllExited(s');
    assert s'.taken == s'.submitted;
  }

  lemma AllExited<T>(s: Pool<T>)
    requires Inv(s) && Live(s) == {}
    ensures s.ready == s.waiting == s.running.Keys == {}
    ensures s.finished == Workers(|s.taken|)
  {
    assert Workers(s.size) <= s.exited;
    assert s.running == map[];
    forall i ensures i in s.finished <==> i in Workers(|s.taken|) {
    }
  }

  // Once all workers have exited nothing is ever taken or run again.
  lemma NobodyLeft<T>(s: Pool<T>, step: Step<T>)
    requires Inv(s) && Enabled(s, step) && Live(s) == {}
    ensures var s' := Apply(s, step);
            && Live(s') == {} && s'.taken == s.taken && s'.finished == s.finished
            && s.queue <= s'.queue
  {
    AllExited(s);
  }

  // What is submitted by the time of a state, and run at a later state where no worker lives
  ghost predicate RunFrom<T>(before: Pool<T>, s: Pool<T>) {
    && (Live(before) != {} ==> Workers(|before.submitted|) <= s.finished)
    && (Live(before) == {} ==> s.finished == before.finished && before.queue <= s.queue)
  }

  lemma StepGrows<T>(s: Pool<T>, step: Step<T>)
    requires Enabled(s, step)
    ensures s.submitted <= Apply(s, step).submitted && s.exited <= Apply(s, step).exited
    ensures Apply(s, step).size == s.size
  {
  }

  lemma {:induction false} RunGrows<T>(s: Pool<T>, steps: seq<Step<T>>, k: nat)
    requires k <= |steps| && Execute(s, steps).Some?
    ensures Execute(s, steps[..k]).Some?
    ensures Execute(s, steps[..k]).value.submitted <= Execute(s, steps).value.submitted
    ensures Live(Execute(s, steps).value) <= Live(Execute(s, steps[..k]).value)
    ensures Execute(s, steps[..k]).value.size == Execute(s, steps).value.size
    decreases |steps|
  {
    if k == |steps| {
      assert steps[..k] == steps;
    } else {
      var earlier := steps[..|steps| - 1];
      assert earlier[..k] == steps[..k];
      RunGrows(s, earlier, k);
      StepGrows(Execute(s, earlier).value, steps[|steps| - 1]);
    }
  }

  lemma StepKeepsRunFrom<T>(before: Pool<T>, s: Pool<T>, step: Step<T>)
    requires Inv(s) && Enabled(s, step) && Live(Apply(s, step)) == {}
    requires before.submitted <= s.submitted && Live(s) <= Live(before)
    requires Live(s) == {} ==> RunFrom(before, s)
    ensures RunFrom(before, Apply(s, step))
  {
    StepGrows(s, step);
    if Live(s) == {} {
      NobodyLeft(s, step);
    } else {
      LastExit(s, step);
    }
  }

  /**
   * When all workers have exited, everything submitted while a worker still lived has finished,
   * and what is submitted after the last exit leaves the finished tasks as they are.
   */
  lemma {:induction false} RunByTheEnd<T>(size: nat, steps: seq<Step<T>>, k: nat)
    requires k <= |steps| && Execute(Init<T>(size), steps).Some?
    requires Live(Execute(Init<T>(size), steps).value) == {}
    ensures Execute(Init<T>(size), steps[..k]).Some?
    ensures RunFrom(Execute(Init<T>(size), steps[..k]).value, Execute(Init<T>(size), steps).value)
    decreases |steps|
  {
    if k == |steps| {
      assert steps[..k] == steps;
    } else {
      var earlier := steps[..|steps| - 1];
      assert earlier[..k] == steps[..k];
      Reachable(size, earlier);
      RunGrows(Init<T>(size), earlier, k);
      var s := Execute(Init<T>(size), earlier).value;
      if Live(s) == {} {
        RunByTheEnd(size, earlier, k);
      }
      StepKeepsRunFrom(Execute(Init<T>(size), steps[..k]).value, s, steps[|steps| - 1]);
    }
  }

  /**
   * The fate of one task: the one pushed by step k of a run at whose end no worker lives has been
   * run by then iff a worker still lived when it was pushed.
   */
  lemma PushedTaskIsRun<T>(size: nat, steps: seq<Step<T>>, k: nat)
    requires k < |steps| && steps[k].Push? && Execute(Init<T>(size), steps).Some?
    requires Live(Execute(Init<T>(size), steps).value) == {}
    ensures Execute(Init<T>(size), steps[..k]).Some?
    ensures var s, end := Execute(Init<T>(size), steps[..k]).value, Execute(Init<T>(size), steps).value;
            && |s.submitted| < |end.submitted| && end.submitted[|s.submitted|] == steps[k].task
            && (|s.submitted| in end.finished <==> Live(s) != {})
  {
    hide Inv, Live;
    var init := Init<T>(size);
    PrefixRuns(init, steps, k);
    RunGrows(init, steps, k + 1);
    assert steps[..k + 1][..k] == steps[..k];
    var s := Execute(init, steps[..k]).value;
    PushKeepsLive(s, steps[k].task);
    RunByTheEnd(size, steps, k);
    RunByTheEnd(size, steps, k + 1);
    Reachable(size, steps[..k]);
    FinishedWereSubmitted(s);
  }

  lemma PushKeepsLive<T>(s: Pool<T>, task: T)
    ensures Live(Apply(s, Step.Push(task))) == Live(s)
  {
  }

  lemma FinishedWereSubmitted<T>(s: Pool<T>)
    requires Inv(s)
    ensures |s.submitted| !in s.finished
  {
    assert |s.taken| <= |s.submitted|;
  }

  /** What a submitter can rely on: a task pushed before shutdown is run, if there are workers. */
  lemma PushedBeforeShutdownIsRun<T>(size: nat, steps: seq<Step<T>>, k: nat)
    requires size > 0 && k < |steps| && steps[k].Push? && Execute(Init<T>(size), steps).Some?
    requires Live(Execute(Init<T>(size), steps).value) == {}
    ensures Execute(Init<T>(size), steps[..k]).Some?
    ensures var s, end := Execute(Init<T>(size), steps[..k]).value, Execute(Init<T>(size), steps).value;
            && (!s.shutdown ==> |s.submitted| in end.finished)
            && |s.submitted| < |end.submitted| && end.submitted[|s.submitted|] == steps[k].task
  {
    hide RunFrom;
    PushedTaskIsRun(size, steps, k);
    Reachable(size, steps[..k]);
    RunGrows(Init<T>(size), steps[..k], 0);
    assert steps[..k][..0] == [];
    var s := Execute(Init<T>(size), steps[..k]).value;
    if !s.shutdown {
      assert 0 in Live(s);
    }
  }

  /**
   * And what it cannot: with one worker that exits at once after shutdown, a task pushed then is
   * accepted, and no continuation of the run ever runs it.
   */
  lemma PushedAfterLastExitIsLost<T>(task: T, after: seq<Step<T>>)
    ensures var steps := [Step.SetShutdown, Step.Check(0), Step.Push(task)];
            && Execute(Init<T>(1), steps).Some?
            && Execute(Init<T>(1), steps).value.submitted == [task]
            && (Execute(Init<T>(1), steps + after).Some? ==>
                  0 !in Execute(Init<T>(1), steps + after).value.finished)
  {
    var steps := [Step.SetShutdown, Step.Check(0), Step.Push(task)];
    LastExitThenPush(task);
    if Execute(Init<T>(1), steps + after).Some? {
      var all := steps + after;
      assert all[..3] == steps && all[..2] == steps[..2] && all[2] == Step.Push(task);
      RunGrows(Init<T>(1), all, 3);
      PushedTaskIsRun(1, all, 2);
    }
  }

  lemma LastExitThenPush<T>(task: T)
    ensures var steps := [Step.SetShutdown, Step.Check(0), Step.Push(task)];
            && Execute(Init<T>(1), steps[..2]).Some? && Execute(Init<T>(1), steps).Some?
            && Execute(Init<T>(1), steps[..2]).value.submitted == []
            && Execute(Init<T>(1), steps).value.submitted == [task]
            && Live(Execute(Init<T>(1), steps[..2]).value) == Live(Execute(Init<T>(1), steps).value) == {}
  {
    var steps := [Step.SetShutdown, Step.Check(0), Step.Push(task)];
    assert steps[..2][..1] == steps[..1] && steps[..1][..0] == [];
    var s0 := Init<T>(1);
    assert 0 in s0.ready;
    var s1 := Apply(s0, Step.SetShutdown);
    var s2 := Apply(s1, Step.Check(0));
    assert Execute(s0, steps[..0]) == Some(s0);
    assert Execute(s0, steps[..1]) == Some(s1);
    assert Execute(s0, steps[..2]) == Some(s2);
    assert Execute(s0, steps) == Some(Apply(s2, Step.Push(task)));
  }

  // Nothing but spurious wake-ups can happen any more.
  ghost predicate Quiescent<T(!new)>(s: Pool<T>) {
    forall step: Step<T> :: Draining(step) && !step.Wake? ==> !Enabled(s, step)
  }

  lemma QuiescentMeansExited<T(!new)>(s: Pool<T>)
    requires Inv(s) && s.shutdown
    ensures Quiescent(s) <==> Live(s) == {} && s.owedOne == s.owedAll == 0
  {
    if Live(s) != {} {
      var step := Progress(s);
    } else {
      AllExited(s);
      assert s.owedAll > 0 ==> Enabled(s, Step<T>.NotifyAll);
      assert s.owedOne > 0 ==> Enabled(s, Step<T>.NotifyOne(None));
    }
  }

  /**
   * The destructor's join finishes: from any reachable state with shutdown set, when no thread
   * submits or shuts down any more, a run has at most Measure steps, spurious wake-ups included.
   * Where it can go no further all workers have exited, and if one was alive at the start the
   * queue is empty and every task has been run.
   */
  lemma JoinFinishes<T(!new)>(size: nat, before: seq<Step<T>>, after: seq<Step<T>>)
    requires Execute(Init<T>(size), before).Some? && Execute(Init<T>(size), before).value.shutdown
    requires Execute(Init<T>(size), before + after).Some?
    requires forall k :: 0 <= k < |after| ==> Draining(after[k])
    ensures var s, s' := Execute(Init<T>(size), before).value, Execute(Init<T>(size), before + after).value;
            && |after| <= Measure(s)
            && (Quiescent(s') <==> Live(s') == {} && s'.owedOne == s'.owedAll == 0)
            && (Live(s) != {} && Live(s') == {} ==> s'.queue == [] && s'.finished == Workers(|s'.submitted|))
  {
    var s := Execute(Init<T>(size), before).value;
    ExecuteSplits(Init<T>(size), before, after);
    var s' := Execute(s, after).value;
    Reachable(size, before);
    Reachable(size, before + after);
    DrainBound(s, after);
    QuiescentMeansExited(s');
    if Live(s) != {} && Live(s') == {} {
      assert (before + after)[..|before|] == before;
      RunByTheEnd(size, before + after, |before|);
      AllRun(s, s');
    }
  }

  lemma AllRun<T>(before: Pool<T>, s: Pool<T>)
    requires Inv(s) && Live(s) == {} && Live(before) != {} && RunFrom(before, s) && s.submitted == before.submitted
    ensures s.queue == [] && s.finished == Workers(|s.submitted|)
  {
    AllExited(s);
    assert Workers(|s.submitted|) <= Workers(|s.taken|);
  }

  lemma {:induction false} ExecuteSplits<T>(s: Pool<T>, a: seq<Step<T>>, b: seq<Step<T>>)
    requires Execute(s, a).Some?
    ensures Execute(s, a + b) == Execute(Execute(s, a).value, b)
  {
    if b == [] {
      assert a + b == a;
    } else {
      ExecuteSplits(s, a, b[..|b| - 1]);
      assert (a + b)[..|a + b| - 1] == a + b[..|b| - 1];
    }
  }
}
