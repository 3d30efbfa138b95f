/**
 The queued thread pool and its worker as code. Each method is shown to be an execution of the protocol in
 `ThreadPoolSpec`, in which other callers, the other threads and shutdown take their steps in between.
 */
module QueuedThreadPool {
  import opened FiniteSets
  import opened Options
  import opened ThreadPoolSpec

  datatype StartResult =
    Started | EnqueuedTask | TerminatedError | NullTaskError | TooManyRequestsError | ExecutionError

  class BlockingQueue {
    var workerQueue: seq<Task>
    const limit: Limit

    constructor (limit: Limit)
      ensures workerQueue == [] && this.limit == limit
    {
      this.limit, workerQueue := limit, [];
    }

    method Push(task: Task) returns (ok: bool)
      modifies this`workerQueue
      ensures ok <==> !(limit.Bound? && |old(workerQueue)| == limit.size)
      ensures workerQueue == if ok then old(workerQueue) + [task] else old(workerQueue)
    {
      if limit.Bound? && limit.size == |workerQueue| {
        return false;
      }
      workerQueue := workerQueue + [task];
      ok := true;
    }

    method Pop() returns (task: Option<Task>)
      modifies this`workerQueue
      ensures old(workerQueue) == [] ==> task == None && workerQueue == []
      ensures old(workerQueue) != [] ==> task.Some? && old(workerQueue) == [task.value] + workerQueue
    {
      if workerQueue == [] {
        return None;
      }
      task := Some(workerQueue[0]);
      workerQueue := workerQueue[1..];
    }
  }

  /** The task is where the answer of `start` says. */
  predicate Settled(task: Task, result: StartResult, p: Pool) {
    && task in p.place
    && match result
       case Started => p.place[task].On? || p.place[task].Done?
       case EnqueuedTask => p.place[task].Queued? && p.queue != [] && p.queue[|p.queue| - 1] == task
       case TooManyRequestsError => p.place[task].Rejected? && QueueFull(p)
       case _ => p.place[task].Rejected?
  }

  /** What one attempt to start a thread leads to: an answer, or another attempt. */
  function Answer(p: Pool, systemError: bool): Option<StartResult> {
    if systemError then Some(ExecutionError)
    else if !Full(p) then Some(Started)
    else if p.active == 0 then None
    else Some(if QueueFull(p) then TooManyRequestsError else EnqueuedTask)
  }

  /**
   The answer of the retry loop that begins in state `p`. `fails` says of each attempt to start a thread whether a
   system error occurs, `n` is how many attempts come before the last one, which is made in state `at`. Another attempt
   is made only while no thread is free and the counter says that none will ask for a task.
   */
  ghost predicate Answered(p: Pool, fails: nat -> bool, n: nat, at: Pool, result: StartResult) {
    && Leads(p, at) && at.active == p.active
    && (forall i: nat | i < n :: !fails(i))
    && (if n == 0 then at == p else |p.workers| >= p.capacity && p.active == 0)
    && (result == ExecutionError <==> fails(n))
    && (result == Started <==> !fails(n) && |at.workers| < at.capacity)
    && (result.EnqueuedTask? || result.TooManyRequestsError? ==> at.active != 0)
    && (result == TooManyRequestsError ==> at.limit == Bound(|at.queue|))
    && (result == EnqueuedTask ==> at.limit != Bound(|at.queue|))
    && result != TerminatedError && result != NullTaskError
  }

  /** The retry loop that began in state `p` has made `n` attempts, and has found no free thread. */
  ghost predicate Looping(p: Pool, fails: nat -> bool, n: nat, q: Pool) {
    && Leads(p, q) && q.active == p.active
    && (forall i: nat | i < n :: !fails(i))
    && (if n == 0 then q == p else Answer(p, false) == None)
  }

  lemma LoopEndsOrGoesOn(p: Pool, fails: nat -> bool, n: nat, at: Pool, ended: Option<StartResult>, q: Pool)
    requires Looping(p, fails, n, at) && Leads(at, q)
    requires ended == Answer(at, fails(n)) && (ended == None ==> q.active == 0)
    ensures Leads(p, q)
    ensures ended.Some? ==> Answered(p, fails, n, at, ended.value)
    ensures ended == None ==> Looping(p, fails, n + 1, q)
  {
    LeadsOn(p, at, q);
  }

  /** Thread identities from `next` on have not been used. */
  ghost predicate Below(workers: map<Thread, Worker>, next: Thread) {
    forall w :: w in workers ==> w < next
  }

  class QueuedThreadPool {
    const maximumPoolSize: nat
    const queue: BlockingQueue
    var threads: map<Thread, Worker>
    var nextThread: Thread
    var activeWorkerCount: int
    var terminated: bool
    ghost var starting: Starting
    ghost var place: map<Task, Place>
    ghost var pushed: seq<Task>
    ghost var begun: seq<Begun>
    ghost var leaked: nat

    ghost function State(): Pool
      reads this, queue
    {
      Pool(maximumPoolSize, queue.limit, threads, activeWorkerCount, queue.workerQueue, starting, terminated, place,
           pushed, begun, leaked)
    }

    /** The objects are in state `p`, which is in order. */
    ghost predicate Is(p: Pool)
      reads this, queue
    {
      p == State() && Inv(p) && maximumPoolSize > 0 && Below(p.workers, nextThread)
    }

    constructor (maximumPoolSize: nat, queue: BlockingQueue)
      requires maximumPoolSize > 0 && queue.workerQueue == []
      ensures Is(Initial(maximumPoolSize, queue.limit)) && this.queue == queue
    {
      this.maximumPoolSize, this.queue := maximumPoolSize, queue;
      threads, nextThread, activeWorkerCount, terminated := map[], 0, 0, false;
      starting, place, pushed, begun, leaked := Free, map[], [], [], 0;
      InitialInv(maximumPoolSize, queue.limit);
    }

    // ---- the other parties ----

    /** Any steps of anybody, between two moments at which nobody holds the lock; `task` does not get the lock. */
    method AnySteps(task: Task, ghost p: Pool) returns (ghost steps: seq<Step>, ghost q: Pool)
      requires Is(p) && p.starting.Free?
      modifies this, queue
      ensures Reaches(p, steps, q) && Lock(task) !in steps
      ensures q == State() && Below(q.workers, nextThread) && q.starting.Free?
    {
      steps, q := [], p;
    }

    /** Any steps that need no lock, while a caller holds it. */
    method LocklessSteps(ghost p: Pool) returns (ghost steps: seq<Step>, ghost q: Pool)
      requires Is(p) && !p.starting.Free?
      modifies this`threads, this`nextThread, this`place, this`leaked, this`terminated
      ensures Reaches(p, steps, q) && forall s | s in steps :: Lockless(s)
      ensures q == State() && Below(q.workers, nextThread)
    {
      steps, q := [], p;
    }

    /** Any steps in which thread `w` has no part; no more than `arrivals` of them queue a task. */
    method StepsAround(w: Thread, arrivals: nat, ghost p: Pool)
      returns (left: nat, ghost steps: seq<Step>, ghost q: Pool)
      requires Is(p) && p.starting.Free?
      modifies this, queue
      ensures Reaches(p, steps, q) && Arrivals(steps) + left <= arrivals && forall s | s in steps :: !ByThread(s, w)
      ensures q == State() && Below(q.workers, nextThread) && q.starting.Free?
    {
      left, steps, q := arrivals, [], p;
    }

    method OthersBefore(task: Task, ghost p: Pool) returns (ghost q: Pool)
      requires Is(p) && p.starting.Free? && task in p.place && p.place[task] == Waiting
      modifies this, queue
      ensures Is(q) && q.starting.Free? && Leads(p, q)
      ensures task in q.place && q.place[task] == Waiting
    {
      ghost var steps;
      steps, q := AnySteps(task, p);
      RunInv(p, steps, q);
      WaitingStays(p, steps, q, task);
    }

    method OthersMeanwhile(ghost p: Pool) returns (ghost q: Pool)
      requires Is(p) && !p.starting.Free?
      modifies this`threads, this`nextThread, this`place, this`leaked, this`terminated
      ensures Is(q) && Leads(p, q)
      ensures q.starting == p.starting && q.queue == p.queue && q.active == p.active
      ensures |q.workers| <= |p.workers|
    {
      ghost var steps;
      steps, q := LocklessSteps(p);
      RunInv(p, steps, q);
      WhileHeld(p, steps, q);
      Fewer(q.workers.Keys, p.workers.Keys);
    }

    method OthersAround(w: Thread, arrivals: nat, ghost p: Pool) returns (left: nat, ghost q: Pool)
      requires Is(p) && p.starting.Free? && w in p.workers
      modifies this, queue
      ensures Is(q) && q.starting.Free? && Leads(p, q)
      ensures w in q.workers && q.workers[w] == p.workers[w]
      ensures |q.queue| + left <= |p.queue| + arrivals
    {
      ghost var steps;
      left, steps, q := StepsAround(w, arrivals, p);
      RunInv(p, steps, q);
      ThreadStays(p, steps, q, w);
      QueueGrowth(p, steps, q);
    }

    // ---- the single steps of `start` ----

    method Asked(task: Task, ghost p: Pool) returns (ghost q: Pool)
      requires Is(p) && Enabled(p, Ask(task))
      modifies this`place
      ensures q == Apply(p, Ask(task)) && Is(q)
    {
      StepInv(p, Ask(task));
      q := Apply(p, Ask(task));
      place := place[task := if terminated then Rejected else Waiting];
    }

    method Locked(task: Task, ghost p: Pool) returns (ghost q: Pool)
      requires Is(p) && Enabled(p, Lock(task))
      modifies this`place, this`starting
      ensures q == Apply(p, Lock(task)) && Is(q)
    {
      StepInv(p, Lock(task));
      q := Apply(p, Lock(task));
      place, starting := place[task := Holding], Trying(task);
    }

    method Rejecting(ghost s: Step, ghost p: Pool) returns (ghost q: Pool)
      requires Is(p) && (s == SystemError || s == Refuse) && Enabled(p, s)
      modifies this`place, this`starting
      ensures q == Apply(p, s) && Is(q)
    {
      StepInv(p, s);
      q := Apply(p, s);
      place, starting := place[starting.task := Rejected], Free;
    }

    method LaunchWorker(task: Task, ghost p: Pool) returns (w: Thread, ghost q: Pool)
      requires Is(p) && p.starting == Trying(task) && !Full(p)
      modifies this`nextThread, this`threads, this`place, this`begun, this`starting
      ensures Enabled(p, Launch(w)) && q == Apply(p, Launch(w)) && Is(q)
    {
      w := nextThread;
      q := LaunchIs(p, w);
      Occupy(task, p, q);
    }

    /** A thread begins to run a task. */
    method Occupy(task: Task, ghost p: Pool, ghost q: Pool)
      requires p == State() && p.starting == Trying(task) && q == ThreadPoolSpec.Launching(p, nextThread, task)
      modifies this`nextThread, this`threads, this`place, this`begun, this`starting
      ensures q == State() && nextThread == old(nextThread) + 1
    {
      threads := threads[nextThread := Running(task)];
      place, begun, starting := place[task := On(nextThread)], begun + [Begun(task, false)], Launched;
      nextThread := nextThread + 1;
    }

    lemma LaunchIs(p: Pool, w: Thread) returns (q: Pool)
      requires Inv(p) && p.starting.Trying? && !Full(p) && Below(p.workers, w)
      ensures Enabled(p, Launch(w)) && q == Apply(p, Launch(w)) && Inv(q) && Below(q.workers, w + 1)
    {
      StepInv(p, Launch(w));
      q := Apply(p, Launch(w));
    }

    method CountWorker(ghost p: Pool) returns (ghost q: Pool)
      requires Is(p) && Enabled(p, Count)
      modifies this`activeWorkerCount, this`starting
      ensures q == Apply(p, Count) && Is(q)
    {
      StepInv(p, Count);
      q := Apply(p, Count);
      activeWorkerCount := activeWorkerCount + 1;
      starting := Free;
    }

    /** The thread pool has no free thread, or, after a pause, is asked once more. */
    method Turn(ghost s: Step, ghost p: Pool) returns (ghost q: Pool)
      requires Is(p) && (s == NoThread || s == Retry) && Enabled(p, s)
      modifies this`starting
      ensures q == Apply(p, s) && Is(q)
    {
      StepInv(p, s);
      q := Apply(p, s);
      starting := q.starting;
    }

    method PushTask(task: Task, ghost p: Pool) returns (ok: bool, ghost q: Pool)
      requires Is(p) && p.starting == TurnedAway(task) && p.active != 0
      modifies this`place, this`starting, this`pushed, queue
      ensures ok == !QueueFull(p)
      ensures q == Apply(p, if ok then Enqueue else Refuse) && Is(q)
    {
      ghost var s := if QueueFull(p) then Refuse else Enqueue;
      StepInv(p, s);
      q := Apply(p, s);
      ok := queue.Push(task);
      if ok {
        place, pushed, starting := place[task := Queued], pushed + [task], Free;
      } else {
        place, starting := place[task := Rejected], Free;
      }
    }

    // ---- start ----

    /**
     Hands `task` over: to a thread, to the queue, or back to the caller with an error, and says which. The retry loop
     ends if only finitely many of its pauses go by without a thread leaving. Without a system error a thread runs the
     task whenever one is free once the lock is held (`locked`).
     */
    method Start(task: Option<Task>, fails: nat -> bool, ghost p: Pool)
      returns (result: StartResult, ghost locked: Pool, ghost n: nat, ghost at: Pool, ghost q: Pool)
      requires Is(p) && p.starting.Free? && (task.Some? ==> task.value !in p.place)
      modifies this, queue
      ensures Is(q) && q.starting.Free? && Leads(p, q)
      ensures result.TerminatedError? <==> p.terminated
      ensures result.NullTaskError? <==> !p.terminated && task.None?
      ensures if task.None? then q == p else Settled(task.value, result, q)
      ensures task.Some? && !result.TerminatedError? ==>
                Leads(p, locked) && locked.starting == Trying(task.value) && Answered(locked, fails, n, at, result)
      ensures task.Some? && !result.TerminatedError? && !fails(0) && |locked.workers| < locked.capacity ==>
                result == Started
    {
      locked, n, at := p, 0, p;
      LeadsSelf(p);
      if task.None? {
        return if terminated then TerminatedError else NullTaskError, p, 0, p, p;
      }
      LeadsThen(p, p, Ask(task.value));
      ghost var asked := Asked(task.value, p);
      if terminated {
        return TerminatedError, p, 0, p, asked;
      }
      locked := WaitForLock(task.value, asked);
      LeadsOn(p, asked, locked);
      result, n, at, q := Retrying(task.value, fails, locked);
      LeadsOn(p, locked, q);
    }

    /** The others run on until the lock is free and this caller's. */
    method WaitForLock(task: Task, ghost p: Pool) returns (ghost q: Pool)
      requires Is(p) && p.starting.Free? && task in p.place && p.place[task] == Waiting
      modifies this, queue
      ensures Is(q) && q.starting == Trying(task) && Leads(p, q)
    {
      ghost var free := OthersBefore(task, p);
      LeadsThen(p, free, Lock(task));
      q := Locked(task, free);
    }

    /** The loop of `start`, which holds the lock. */
    method Retrying(task: Task, fails: nat -> bool, ghost p: Pool)
      returns (result: StartResult, ghost n: nat, ghost at: Pool, ghost q: Pool)
      requires Is(p) && p.starting == Trying(task)
      modifies this, queue
      ensures Is(q) && q.starting.Free? && Leads(p, q)
      ensures Settled(task, result, q) && Answered(p, fails, n, at, result)
    {
      var pauses: nat := *;
      LeadsSelf(p);
      q := p;
      var attempts := 0;
      while true
        invariant Is(q) && q.starting == Trying(task) && Looping(p, fails, attempts, q)
        decreases |q.workers|, pauses
      {
        at, n := q, attempts;
        var ended;
        ended, pauses, q := Attempt(task, fails(attempts), pauses, at);
        LoopEndsOrGoesOn(p, fails, n, at, ended, q);
        if ended.Some? {
          return ended.value, n, at, q;
        }
        attempts := attempts + 1;
      }
    }

    /** One round of the loop: an error, a thread, a place in the queue, or a pause. */
    method Attempt(task: Task, systemError: bool, pauses: nat, ghost p: Pool)
      returns (ended: Option<StartResult>, left: nat, ghost q: Pool)
      requires Is(p) && p.starting == Trying(task)
      modifies this, queue
      ensures Is(q) && Leads(p, q)
      ensures ended == Answer(p, systemError)
      ensures ended.Some? ==> q.starting.Free? && Settled(task, ended.value, q)
      ensures ended == None ==> q.starting == Trying(task) && q.active == 0
      ensures ended == None ==> |q.workers| < |p.workers| || (|q.workers| == |p.workers| && left < pauses)
    {
      left := pauses;
      LeadsSelf(p);
      if systemError {
        LeadsThen(p, p, SystemError);
        q := Rejecting(SystemError, p);
        return Some(ExecutionError), left, q;
      }
      if |threads| < maximumPoolSize {
        q := Launching(task, p);
        return Some(Started), left, q;
      }
      LeadsThen(p, p, NoThread);
      ghost var turned := Turn(NoThread, p);
      ended, left, q := WithoutThread(task, pauses, turned);
      LeadsOn(p, turned, q);
    }

    /** No thread was free: by now threads may have left, but the counter says whether one will ask for a task. */
    method WithoutThread(task: Task, pauses: nat, ghost p: Pool)
      returns (ended: Option<StartResult>, left: nat, ghost q: Pool)
      requires Is(p) && p.starting == TurnedAway(task) && p.workers != map[]
      modifies this, queue
      ensures Is(q) && Leads(p, q)
      ensures ended == if p.active == 0 then None else Some(if QueueFull(p) then TooManyRequestsError else EnqueuedTask)
      ensures ended.Some? ==> q.starting.Free? && Settled(task, ended.value, q)
      ensures ended == None ==> q.starting == Trying(task) && q.active == 0
      ensures ended == None ==> |q.workers| < |p.workers| || (|q.workers| == |p.workers| && left < pauses)
    {
      left := pauses;
      ghost var now := OthersMeanwhile(p);
      if activeWorkerCount != 0 {
        LeadsThen(p, now, if QueueFull(now) then Refuse else Enqueue);
        var ok;
        ok, q := PushTask(task, now);
        return Some(if ok then EnqueuedTask else TooManyRequestsError), left, q;
      }
      ghost var later;
      left, later := Sleep(pauses, now);
      LeadsOn(p, now, later);
      LeadsThen(p, later, Retry);
      q := Turn(Retry, later);
      ended := None;
    }

    /** A thread is found: it is started, and counted while it may already be running its task. */
    method Launching(task: Task, ghost p: Pool) returns (ghost q: Pool)
      requires Is(p) && p.starting == Trying(task) && !Full(p)
      modifies this, queue
      ensures Is(q) && q.starting.Free? && Leads(p, q) && Settled(task, Started, q)
    {
      var w;
      ghost var launched;
      w, launched := LaunchWorker(task, p);
      LeadsSelf(p);
      LeadsThen(p, p, Launch(w));
      ghost var later := OthersMeanwhile(launched);
      LeadsOn(p, launched, later);
      RankOf(launched, later, task);
      LeadsThen(p, later, Count);
      q := CountWorker(later);
    }

    lemma RankOf(p: Pool, q: Pool, t: Task)
      requires Inv(p) && Leads(p, q) && t in p.place && p.place[t].On?
      ensures t in q.place && (q.place[t].On? || q.place[t].Done?)
    {
      var steps :| Reaches(p, steps, q);
      AcceptedStays(p, steps, q, t);
    }

    /**
     The pause of the retry loop. The others run on; no thread asks for a task any more, so all that can happen to the
     threads is that they leave. `pauses` counts how often this may yet not happen.
     */
    method Sleep(pauses: nat, ghost p: Pool) returns (left: nat, ghost q: Pool)
      requires Is(p) && p.starting.TurnedAway? && p.active == 0
      modifies this`threads, this`nextThread, this`place, this`leaked, this`terminated
      ensures Is(q) && Leads(p, q) && q.starting == p.starting && q.active == 0
      ensures |q.workers| < |p.workers| || (|q.workers| == |p.workers| && (left < pauses || p.workers == map[]))
    {
      left, q := pauses, p;
      LeadsSelf(p);
      var fruitless: bool := *;
      if threads.Keys == {} {
        assert threads == map[];
        return;
      }
      if pauses > 0 && fruitless {
        left := pauses - 1;
        return;
      }
      var w :| w in threads.Keys;
      RetryWaitsForExits(p, w);
      LeadsThen(p, p, Exit(w));
      BusyDrop(threads, w);
      q := LeavePool(w, p);
    }

    // ---- the worker ----

    /** The next task for a thread, or none, in which case the thread is no longer counted. */
    method GetNextTask(w: Thread, ghost p: Pool) returns (task: Option<Task>, ghost q: Pool)
      requires Is(p) && p.starting.Free? && w in p.workers && p.workers[w].Fetching?
      modifies this`threads, this`activeWorkerCount, this`place, this`begun, queue
      ensures task == if p.queue == [] then None else Some(p.queue[0])
      ensures q == Apply(p, Next(w)) && Is(q)
    {
      StepInv(p, Next(w));
      q := Apply(p, Next(w));
      task := queue.Pop();
      if task == None {
        activeWorkerCount := activeWorkerCount - 1;
        threads := threads[w := Draining];
      } else {
        assert queue.workerQueue == p.queue[1..];
        threads := threads[w := Running(task.value)];
        place, begun := place[task.value := On(w)], begun + [Begun(task.value, true)];
      }
    }

    /** `run` of the task the thread holds returns. */
    method FinishTask(w: Thread, ghost p: Pool) returns (ghost q: Pool)
      requires Is(p) && w in p.workers && p.workers[w].Running?
      modifies this`threads, this`place
      ensures q == Apply(p, Finish(w)) && Is(q)
    {
      StepInv(p, Finish(w));
      q := Apply(p, Finish(w));
      place := place[threads[w].task := Done];
      threads := threads[w := Fetching];
    }

    /** `run` of the task the thread holds throws, which ends the loop of the worker; the pool survives it. */
    method ThrowOut(w: Thread, ghost p: Pool) returns (ghost q: Pool)
      requires Is(p) && w in p.workers && p.workers[w].Running?
      modifies this`threads, this`place, this`leaked
      ensures q == Apply(p, Throw(w)) && Is(q)
    {
      StepInv(p, Throw(w));
      q := Apply(p, Throw(w));
      place, leaked := place[threads[w].task := Done], leaked + 1;
      threads := threads[w := Draining];
    }

    method LeavePool(w: Thread, ghost p: Pool) returns (ghost q: Pool)
      requires Is(p) && w in p.workers && p.workers[w].Draining?
      modifies this`threads
      ensures q == Apply(p, Exit(w)) && Is(q)
    {
      StepInv(p, Exit(w));
      q := Apply(p, Exit(w));
      threads := threads - {w};
    }

    /** The step by which a thread stops asking: a task that throws, or an ask that finds the queue empty. */
    ghost predicate Stops(p: Pool, w: Thread, threw: bool, q: Pool) {
      if threw then Enabled(p, Throw(w)) && q == Apply(p, Throw(w))
      else Enabled(p, Next(w)) && p.queue == [] && q == Apply(p, Next(w))
    }

    /**
     The worker: it runs its own task and then what it fetches, until `run` of one of them throws or a fetch finds the
     queue empty (`last`), and leaves the pool. Its task has finished, and no accepted task has been lost meanwhile. It
     ends if only finitely many tasks keep arriving.
     */
    method RunWorker(w: Thread, throws: Task -> bool, ghost p: Pool)
      returns (threw: bool, ghost last: Pool, ghost stopped: Pool, ghost q: Pool)
      requires Is(p) && p.starting.Free? && w in p.workers && p.workers[w].Running?
      modifies this, queue
      ensures Is(q) && Leads(p, q) && w !in q.workers
      ensures Leads(p, last) && Stops(last, w, threw, stopped) && Leads(stopped, q)
      ensures threw ==> throws(last.workers[w].task)
      ensures throws(p.workers[w].task) ==> threw && last.workers[w] == p.workers[w]
      ensures p.workers[w].task in q.place && q.place[p.workers[w].task] == Done
      ensures forall t :: t in p.place && AcceptedAt(p.place[t]) ==> t in q.place && AcceptedAt(q.place[t])
    {
      var arrivals: nat := *;
      LeadsSelf(p);
      var left;
      ghost var finished;
      threw, left, last, finished := Serve(w, arrivals, throws, p);
      stopped := finished;
      if threw {
        q := Leave(w, left, finished);
      } else {
        ghost var later;
        threw, later, stopped, q := ServeAll(w, left, throws, finished);
        last := later;
        LeadsOn(p, finished, last);
      }
      LeadsOn(p, finished, q);
      Kept(p, finished, q, p.workers[w].task);
    }

    /** What was done stays done, and what was accepted stays accepted. */
    lemma Kept(p: Pool, finished: Pool, q: Pool, t: Task)
      requires Inv(p) && Inv(finished) && Leads(p, q) && Leads(finished, q)
      requires t in finished.place && finished.place[t] == Done
      ensures t in q.place && q.place[t] == Done
      ensures forall u :: u in p.place && AcceptedAt(p.place[u]) ==> u in q.place && AcceptedAt(q.place[u])
    {
      LeadsForward(finished, q, t);
      forall u | u in p.place && AcceptedAt(p.place[u]) ensures u in q.place && AcceptedAt(q.place[u]) {
        LeadsForward(p, q, u);
      }
    }

    /** The loop of the worker, and leaving the pool. */
    method ServeAll(w: Thread, arrivals: nat, throws: Task -> bool, ghost p: Pool)
      returns (threw: bool, ghost last: Pool, ghost stopped: Pool, ghost q: Pool)
      requires Is(p) && p.starting.Free? && w in p.workers && p.workers[w].Fetching?
      modifies this, queue
      ensures Is(q) && Leads(p, q) && w !in q.workers
      ensures Leads(p, last) && Stops(last, w, threw, stopped) && Leads(stopped, q)
      ensures threw ==> throws(last.workers[w].task)
    {
      var left := arrivals;
      LeadsSelf(p);
      ghost var now := p;
      while true
        invariant Is(now) && now.starting.Free? && w in now.workers && now.workers[w].Fetching? && Leads(p, now)
        decreases |now.queue| + left
      {
        ghost var before := now;
        var goesOn;
        goesOn, threw, left, last, now := ServeNext(w, left, throws, before);
        LeadsOn(p, before, now);
        if !goesOn {
          LeadsOn(p, before, last);
          break;
        }
      }
      stopped := now;
      q := Leave(w, left, now);
      LeadsOn(p, now, q);
    }

    /** One round of the loop: a task is fetched and run; the loop ends if there is none or it throws (`last`). */
    method ServeNext(w: Thread, arrivals: nat, throws: Task -> bool, ghost p: Pool)
      returns (goesOn: bool, threw: bool, left: nat, ghost last: Pool, ghost q: Pool)
      requires Is(p) && p.starting.Free? && w in p.workers && p.workers[w].Fetching?
      modifies this, queue
      ensures Is(q) && Leads(p, q) && Leads(p, last) && q.starting.Free? && w in q.workers
      ensures goesOn ==> q.workers[w].Fetching? && |q.queue| + left < |p.queue| + arrivals
      ensures !goesOn ==> q.workers[w].Draining? && Stops(last, w, threw, q)
      ensures !goesOn && threw ==> throws(last.workers[w].task)
    {
      threw := false;
      left, last := OthersAround(w, arrivals, p);
      LeadsThen(p, last, Next(w));
      var task;
      ghost var fetched;
      task, fetched := GetNextTask(w, last);
      goesOn := task.Some?;
      q := fetched;
      if goesOn {
        ghost var now;
        threw, left, now, q := Serve(w, left, throws, fetched);
        LeadsOn(p, fetched, q);
        LeadsOn(p, fetched, now);
        last, goesOn := now, !threw;
      }
    }

    /** `run` of a fetched task, while the others go on. */
    method Serve(w: Thread, arrivals: nat, throws: Task -> bool, ghost p: Pool)
      returns (threw: bool, left: nat, ghost last: Pool, ghost q: Pool)
      requires Is(p) && p.starting.Free? && w in p.workers && p.workers[w].Running?
      modifies this, queue
      ensures Is(q) && Leads(p, q) && q.starting.Free? && w in q.workers && Leads(p, last)
      ensures if threw then q.workers[w].Draining? && Stops(last, w, true, q) else q.workers[w].Fetching?
      ensures threw <==> throws(p.workers[w].task)
      ensures w in last.workers && last.workers[w] == p.workers[w]
      ensures |q.queue| + left <= |p.queue| + arrivals
      ensures p.workers[w].task in q.place && q.place[p.workers[w].task] == Done
    {
      left, last := OthersAround(w, arrivals, p);
      threw := throws(threads[w].task);
      LeadsThen(p, last, if threw then Throw(w) else Finish(w));
      if threw {
        q := ThrowOut(w, last);
      } else {
        q := FinishTask(w, last);
      }
    }

    /** The end of `run` of the worker, after which its thread leaves the pool. */
    method Leave(w: Thread, arrivals: nat, ghost p: Pool) returns (ghost q: Pool)
      requires Is(p) && p.starting.Free? && w in p.workers && p.workers[w].Draining?
      modifies this, queue
      ensures Is(q) && Leads(p, q) && w !in q.workers
    {
      var left;
      ghost var now;
      left, now := OthersAround(w, arrivals, p);
      LeadsThen(p, now, Exit(w));
      q := LeavePool(w, now);
    }

    method Shutdown(ghost p: Pool) returns (ghost q: Pool)
      requires Is(p)
      modifies this`terminated
      ensures q == Apply(p, ThreadPoolSpec.Shutdown) && Is(q)
    {
      StepInv(p, ThreadPoolSpec.Shutdown);
      q := Apply(p, ThreadPoolSpec.Shutdown);
      terminated := true;
    }
  }
}
