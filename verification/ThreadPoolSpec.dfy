/**
 The queued thread pool as a protocol between callers of `start`, pool threads and shutdown. Each step is one
 critical section or one event outside the queue lock; `start` holds the lock for the whole of its retry loop.
 */
module ThreadPoolSpec {
  import opened FiniteSets

  type Task = nat
  type Thread = nat

  /** An occupied thread: running a task, about to ask for the next one, or past its last ask or a task that threw. */
  datatype Worker = Running(task: Task) | Fetching | Draining

  /**
   The caller that holds the queue lock: trying for a thread, turned away because none was free, or with a thread
   launched and not yet counted.
   */
  datatype Starting = Free | Trying(task: Task) | TurnedAway(task: Task) | Launched

  /** A task that began to run, straight away or out of the queue. */
  datatype Begun = Begun(task: Task, queued: bool)

  /** The queue accepts any number of tasks, or a limited one. */
  datatype Limit = Unbound | Bound(size: nat)

  /** Where a task handed to `start` is. */
  datatype Place = Waiting | Holding | Queued | On(thread: Thread) | Done | Rejected

  /**
   `place` is the ledger of every task ever handed to `start`; `pushed` and `begun` record the order in which tasks
   entered the queue and began to run; `leaked` counts the threads that stopped asking without the counter being told,
   because `run` of a task threw.
   */
  datatype Pool = Pool(
    capacity: nat,
    limit: Limit,
    workers: map<Thread, Worker>,
    active: int,
    queue: seq<Task>,
    starting: Starting,
    terminated: bool,
    place: map<Task, Place>,
    pushed: seq<Task>,
    begun: seq<Begun>,
    leaked: nat)

  datatype Step =
    | Ask(task: Task)
    | Lock(task: Task)
    | Launch(thread: Thread)
    | NoThread
    | Count
    | Enqueue
    | Refuse
    | SystemError
    | Retry
    | Finish(thread: Thread)
    | Throw(thread: Thread)
    | Next(thread: Thread)
    | Exit(thread: Thread)
    | Shutdown

  predicate Full(p: Pool) {
    |p.workers| >= p.capacity
  }

  predicate QueueFull(p: Pool) {
    p.limit.Bound? && |p.queue| == p.limit.size
  }

  /** When a step can happen: the guards of the code, and the queue lock. */
  predicate Enabled(p: Pool, s: Step) {
    match s
    case Ask(t) => t !in p.place
    case Lock(t) => t in p.place && p.place[t] == Waiting && p.starting.Free?
    case Launch(w) => p.starting.Trying? && !Full(p) && w !in p.workers
    case NoThread => p.starting.Trying? && Full(p)
    case Count => p.starting.Launched?
    case Enqueue => p.starting.TurnedAway? && p.active != 0 && !QueueFull(p)
    case Refuse => p.starting.TurnedAway? && p.active != 0 && QueueFull(p)
    case SystemError => p.starting.Trying?
    case Retry => p.starting.TurnedAway? && p.active == 0
    case Finish(w) => w in p.workers && p.workers[w].Running?
    case Throw(w) => w in p.workers && p.workers[w].Running?
    case Next(w) => w in p.workers && p.workers[w].Fetching? && p.starting.Free?
    case Exit(w) => w in p.workers && p.workers[w].Draining?
    case Shutdown => true
  }

  function Apply(p: Pool, s: Step): Pool
    requires Enabled(p, s)
  {
    match s
    case Ask(t) => p.(place := p.place[t := if p.terminated then Rejected else Waiting])
    case Lock(t) => p.(place := p.place[t := Holding], starting := Trying(t))
    case Launch(w) => Launching(p, w, p.starting.task)
    case NoThread => p.(starting := TurnedAway(p.starting.task))
    case Count => p.(active := p.active + 1, starting := Free)
    case Enqueue => Enqueuing(p, p.starting.task)
    case Refuse => p.(place := p.place[p.starting.task := Rejected], starting := Free)
    case SystemError => p.(place := p.place[p.starting.task := Rejected], starting := Free)
    case Retry => p.(starting := Trying(p.starting.task))
    case Finish(w) => Ending(p, w, Fetching)
    case Throw(w) => Ending(p, w, Draining).(leaked := p.leaked + 1)
    case Next(w) =>
      if p.queue == [] then p.(workers := p.workers[w := Draining], active := p.active - 1)
      else Dequeuing(p, w, p.queue[0])
    case Exit(w) => p.(workers := p.workers - {w})
    case Shutdown => p.(terminated := true)
  }

  function Launching(p: Pool, w: Thread, t: Task): Pool {
    p.(workers := p.workers[w := Running(t)], place := p.place[t := On(w)], begun := p.begun + [Begun(t, false)],
       starting := Launched)
  }

  /** `run` ends, one way or the other. */
  function Ending(p: Pool, w: Thread, x: Worker): Pool
    requires w in p.workers && p.workers[w].Running?
  {
    p.(workers := p.workers[w := x], place := p.place[p.workers[w].task := Done])
  }

  function Enqueuing(p: Pool, t: Task): Pool {
    p.(queue := p.queue + [t], pushed := p.pushed + [t], place := p.place[t := Queued], starting := Free)
  }

  function Dequeuing(p: Pool, w: Thread, t: Task): Pool
    requires p.queue != []
  {
    p.(workers := p.workers[w := Running(t)], queue := p.queue[1..], place := p.place[t := On(w)],
       begun := p.begun + [Begun(t, true)])
  }

  function Initial(capacity: nat, limit: Limit): Pool {
    Pool(capacity, limit, map[], 0, [], Free, false, map[], [], [], 0)
  }

  ghost predicate Reaches(p: Pool, steps: seq<Step>, q: Pool)
    decreases |steps|
  {
    if steps == [] then q == p
    else Enabled(p, steps[0]) && Reaches(Apply(p, steps[0]), steps[1..], q)
  }

  // ---- the invariant ----

  /** The threads that will ask for a task again. */
  function Busy(workers: map<Thread, Worker>): set<Thread> {
    set w | w in workers && !workers[w].Draining?
  }

  function OutOfQueue(b: seq<Begun>): seq<Task> {
    if b == [] then []
    else if b[|b| - 1].queued then OutOfQueue(b[..|b| - 1]) + [b[|b| - 1].task]
    else OutOfQueue(b[..|b| - 1])
  }

  /**
   The counter, with the thread just launched, is the number of threads that will ask again and of those that never told
   it that they will not. So it does not underflow, and it is positive while tasks are queued.
   */
  ghost predicate Counted(p: Pool) {
    && p.active + (if p.starting.Launched? then 1 else 0) == |Busy(p.workers)| + p.leaked
    && 0 <= p.active && |p.workers| <= p.capacity
    && (p.queue != [] ==> p.active > 0)
    && (p.limit.Bound? ==> |p.queue| <= p.limit.size)
  }

  predicate Holds(s: Starting, t: Task) {
    s == Trying(t) || s == TurnedAway(t)
  }

  /** The ledger is right: a task is queued, running on a thread, or holding the lock exactly when it says so. */
  ghost predicate Ledger(p: Pool) {
    && (forall t :: t in p.queue <==> t in p.place && p.place[t] == Queued)
    && (forall t, w :: (w in p.workers && p.workers[w] == Running(t)) <==> (t in p.place && p.place[t] == On(w)))
    && (forall t :: Holds(p.starting, t) <==> t in p.place && p.place[t] == Holding)
    && (forall i, j :: 0 <= i < j < |p.queue| ==> p.queue[i] != p.queue[j])
  }

  predicate Ran(p: Pool, t: Task) {
    t in p.place && (p.place[t].On? || p.place[t].Done?)
  }

  predicate InBegun(b: seq<Begun>, t: Task) {
    exists i :: 0 <= i < |b| && b[i].task == t
  }

  /** Tasks leave the queue in the order they entered it, and exactly the running and finished ones began, once each. */
  ghost predicate Ordered(p: Pool) {
    && p.pushed == OutOfQueue(p.begun) + p.queue
    && (forall t :: InBegun(p.begun, t) <==> Ran(p, t))
    && (forall i, j :: 0 <= i < j < |p.begun| ==> p.begun[i].task != p.begun[j].task)
  }

  ghost predicate Inv(p: Pool) {
    Counted(p) && Ledger(p) && Ordered(p)
  }

  lemma InitialInv(capacity: nat, limit: Limit)
    ensures Inv(Initial(capacity, limit))
  {
    assert Busy(map[]) == {};
  }

  lemma BusyPut(workers: map<Thread, Worker>, w: Thread, x: Worker)
    ensures Busy(workers[w := x]) == if x.Draining? then Busy(workers) - {w} else Busy(workers) + {w}
    ensures |workers[w := x]| == |workers| + if w in workers then 0 else 1
  {
    assert workers[w := x].Keys == workers.Keys + {w};
  }

  lemma BusyDrop(workers: map<Thread, Worker>, w: Thread)
    requires w in workers && workers[w].Draining?
    ensures Busy(workers - {w}) == Busy(workers)
    ensures |workers - {w}| == |workers| - 1
  {
    assert (workers - {w}).Keys == workers.Keys - {w};
  }

  lemma BusyMore(workers: map<Thread, Worker>, w: Thread, t: Task)
    requires w !in workers
    ensures |Busy(workers[w := Running(t)])| == |Busy(workers)| + 1
    ensures |workers[w := Running(t)]| == |workers| + 1
  {
    BusyPut(workers, w, Running(t));
    assert w !in Busy(workers);
  }

  /** A thread that would ask again goes on, or does not. */
  lemma BusyStays(workers: map<Thread, Worker>, w: Thread, x: Worker)
    requires w in workers && !workers[w].Draining?
    ensures |Busy(workers[w := x])| == |Busy(workers)| - (if x.Draining? then 1 else 0)
    ensures |workers[w := x]| == |workers|
  {
    BusyPut(workers, w, x);
    assert w in Busy(workers);
    assert Busy(workers) + {w} == Busy(workers);
  }

  lemma LaunchCounted(p: Pool, w: Thread)
    requires Counted(p) && Enabled(p, Launch(w))
    ensures Counted(Apply(p, Launch(w)))
  {
    BusyMore(p.workers, w, p.starting.task);
  }

  lemma EndingCounted(p: Pool, w: Thread, threw: bool)
    requires Counted(p) && w in p.workers && p.workers[w].Running?
    ensures Counted(Apply(p, if threw then Throw(w) else Finish(w)))
  {
    BusyStays(p.workers, w, if threw then Draining else Fetching);
  }

  lemma NextCounted(p: Pool, w: Thread)
    requires Counted(p) && Enabled(p, Next(w))
    ensures Counted(Apply(p, Next(w)))
  {
    BusyStays(p.workers, w, if p.queue == [] then Draining else Running(p.queue[0]));
    assert w in Busy(p.workers);
  }

  lemma OtherCounted(p: Pool, s: Step)
    requires Counted(p) && Enabled(p, s)
    requires !s.Launch? && !s.Finish? && !s.Throw? && !s.Next? && !s.Exit?
    ensures Counted(Apply(p, s))
  {
  }

  lemma StepCounted(p: Pool, s: Step)
    requires Counted(p) && Enabled(p, s)
    ensures Counted(Apply(p, s))
  {
    match s
    case Launch(w) => LaunchCounted(p, w);
    case Finish(w) => EndingCounted(p, w, false);
    case Throw(w) => EndingCounted(p, w, true);
    case Next(w) => NextCounted(p, w);
    case Exit(w) => BusyDrop(p.workers, w);
    case _ => OtherCounted(p, s);
  }

  lemma Append(b: seq<Begun>, x: Begun)
    ensures OutOfQueue(b + [x]) == if x.queued then OutOfQueue(b) + [x.task] else OutOfQueue(b)
    ensures forall t :: InBegun(b + [x], t) <==> InBegun(b, t) || t == x.task
  {
    assert (b + [x])[..|b|] == b;
    assert (b + [x])[|b|] == x;
    forall t | InBegun(b, t) ensures InBegun(b + [x], t) {
      var i :| 0 <= i < |b| && b[i].task == t;
      assert (b + [x])[i].task == t;
    }
  }

  lemma LaunchKeeps(p: Pool, w: Thread)
    requires Inv(p) && Enabled(p, Launch(w))
    ensures var q := Apply(p, Launch(w));
            Ledger(q) && Ordered(q)
  {
    assert Holds(p.starting, p.starting.task);
    BeginKeepsOrder(p, p.starting.task, false, Launching(p, w, p.starting.task));
    LaunchLedger(p, w, p.starting.task);
  }

  lemma LaunchLedger(p: Pool, w: Thread, t: Task)
    requires Ledger(p) && p.starting == Trying(t) && w !in p.workers
    ensures Ledger(Launching(p, w, t))
  {
    var q := Launching(p, w, t);
    assert Holds(p.starting, t);
    forall u ensures Holds(q.starting, u) <==> u in q.place && q.place[u] == Holding {
      assert Holds(p.starting, u) <==> u in p.place && p.place[u] == Holding;
    }
    forall u, v ensures (v in q.workers && q.workers[v] == Running(u)) <==> (u in q.place && q.place[u] == On(v)) {
      assert (v in p.workers && p.workers[v] == Running(u)) <==> (u in p.place && p.place[u] == On(v));
    }
  }

  /** A task that has not run begins, out of the queue or not. */
  lemma BeginKeepsOrder(p: Pool, t: Task, queued: bool, q: Pool)
    requires Ordered(p) && t in p.place && !Ran(p, t) && t in q.place && q.place[t].On?
    requires q.begun == p.begun + [Begun(t, queued)] && q.pushed == p.pushed
    requires p.queue == if queued then [t] + q.queue else q.queue
    requires forall u | u != t :: Ran(q, u) <==> Ran(p, u)
    ensures Ordered(q)
  {
    BegunInOrder(p, t, queued, q);
    BegunRan(p, t, queued, q);
    NewBegun(p.begun, Begun(t, queued));
  }

  lemma BegunInOrder(p: Pool, t: Task, queued: bool, q: Pool)
    requires p.pushed == OutOfQueue(p.begun) + p.queue && q.pushed == p.pushed
    requires q.begun == p.begun + [Begun(t, queued)]
    requires p.queue == if queued then [t] + q.queue else q.queue
    ensures q.pushed == OutOfQueue(q.begun) + q.queue
  {
    Append(p.begun, Begun(t, queued));
    assert queued ==> OutOfQueue(p.begun) + ([t] + q.queue) == (OutOfQueue(p.begun) + [t]) + q.queue;
  }

  lemma BegunRan(p: Pool, t: Task, queued: bool, q: Pool)
    requires forall u :: InBegun(p.begun, u) <==> Ran(p, u)
    requires t in q.place && q.place[t].On? && !Ran(p, t)
    requires q.begun == p.begun + [Begun(t, queued)]
    requires forall u | u != t :: Ran(q, u) <==> Ran(p, u)
    ensures forall u :: InBegun(q.begun, u) <==> Ran(q, u)
    ensures !InBegun(p.begun, t)
  {
    Append(p.begun, Begun(t, queued));
    forall u ensures InBegun(q.begun, u) <==> Ran(q, u) {
      assert InBegun(p.begun, u) <==> Ran(p, u);
    }
  }

  lemma NewBegun(b: seq<Begun>, x: Begun)
    requires forall i, j :: 0 <= i < j < |b| ==> b[i].task != b[j].task
    requires !InBegun(b, x.task)
    ensures var c := b + [x]; forall i, j :: 0 <= i < j < |c| ==> c[i].task != c[j].task
  {
    var c := b + [x];
    forall i, j | 0 <= i < j < |c| ensures c[i].task != c[j].task {
      assert c[i] == b[i];
      if j < |b| {
        assert c[j] == b[j];
      }
    }
  }

  lemma EnqueueKeeps(p: Pool)
    requires Inv(p) && Enabled(p, Enqueue)
    ensures var q := Apply(p, Enqueue);
            Ledger(q) && Ordered(q)
  {
    EnqueueLedger(p);
    assert Holds(p.starting, p.starting.task);
    assert (OutOfQueue(p.begun) + p.queue) + [p.starting.task] == OutOfQueue(p.begun) + (p.queue + [p.starting.task]);
    SameBegun(p, Apply(p, Enqueue));
  }

  lemma EnqueueLedger(p: Pool)
    requires Ledger(p) && p.starting.TurnedAway?
    ensures Ledger(Enqueuing(p, p.starting.task))
  {
    var t := p.starting.task;
    var q := Enqueuing(p, t);
    assert Holds(p.starting, t);
    assert forall u :: u in q.queue <==> u in p.queue || u == t;
  }

  /** Nothing began, and what had run and what the queue is owed is the same. */
  lemma SameBegun(p: Pool, q: Pool)
    requires Ordered(p) && q.begun == p.begun && q.pushed == OutOfQueue(p.begun) + q.queue
    requires forall t :: Ran(q, t) <==> Ran(p, t)
    ensures Ordered(q)
  {
  }

  lemma DequeueKeeps(p: Pool, w: Thread)
    requires Inv(p) && Enabled(p, Next(w)) && p.queue != []
    ensures var q := Apply(p, Next(w));
            Ledger(q) && Ordered(q)
  {
    var t := p.queue[0];
    assert t in p.queue && p.place[t] == Queued;
    assert p.queue == [t] + p.queue[1..];
    BeginKeepsOrder(p, t, true, Dequeuing(p, w, t));
    DequeueLedger(p, w);
  }

  lemma DequeueLedger(p: Pool, w: Thread)
    requires Ledger(p) && p.queue != [] && w in p.workers && p.workers[w].Fetching?
    ensures Ledger(Dequeuing(p, w, p.queue[0]))
  {
    var t := p.queue[0];
    var q := Dequeuing(p, w, t);
    assert t in p.queue && p.place[t] == Queued;
    HeadLeaves(p.queue);
    forall u, v ensures (v in q.workers && q.workers[v] == Running(u)) <==> (u in q.place && q.place[u] == On(v)) {
      assert (v in p.workers && p.workers[v] == Running(u)) <==> (u in p.place && p.place[u] == On(v));
    }
  }

  lemma HeadLeaves(queue: seq<Task>)
    requires queue != [] && forall i, j :: 0 <= i < j < |queue| ==> queue[i] != queue[j]
    ensures forall u :: u in queue[1..] <==> u in queue && u != queue[0]
  {
    assert queue == [queue[0]] + queue[1..];
  }

  lemma EndingKeeps(p: Pool, w: Thread, x: Worker, leaked: nat)
    requires Inv(p) && w in p.workers && p.workers[w].Running? && !x.Running?
    ensures var q := Ending(p, w, x).(leaked := leaked);
            Ledger(q) && Ordered(q)
  {
    EndingLedger(p, w, x, leaked);
    assert p.place[p.workers[w].task] == On(w);
    SameBegun(p, Ending(p, w, x).(leaked := leaked));
  }

  lemma EndingLedger(p: Pool, w: Thread, x: Worker, leaked: nat)
    requires Ledger(p) && w in p.workers && p.workers[w].Running? && !x.Running?
    ensures Ledger(Ending(p, w, x).(leaked := leaked))
  {
    assert p.place[p.workers[w].task] == On(w);
  }

  lemma OtherKeeps(p: Pool, s: Step)
    requires Inv(p) && Enabled(p, s)
    requires !s.Launch? && !s.Enqueue? && !s.Finish? && !s.Throw? && (s.Next? ==> p.queue == [])
    ensures var q := Apply(p, s);
            Ledger(q) && Ordered(q)
  {
    OtherLedger(p, s);
    HolderHolds(p);
    SameBegun(p, Apply(p, s));
  }

  lemma HolderHolds(p: Pool)
    requires Ledger(p)
    ensures p.starting.Trying? || p.starting.TurnedAway? ==>
              p.starting.task in p.place && p.place[p.starting.task] == Holding
  {
    if p.starting.Trying? || p.starting.TurnedAway? {
      assert Holds(p.starting, p.starting.task);
    }
  }

  lemma OtherLedger(p: Pool, s: Step)
    requires Ledger(p) && Enabled(p, s)
    requires !s.Launch? && !s.Enqueue? && !s.Finish? && !s.Throw? && (s.Next? ==> p.queue == [])
    ensures Ledger(Apply(p, s))
  {
    HolderHolds(p);
    if s.Ask? || s.Lock? || s.Refuse? || s.SystemError? {
      HandedLedger(p, s);
    } else {
      assert forall t :: Holds(Apply(p, s).starting, t) <==> Holds(p.starting, t);
    }
  }

  /** The steps that move a task between the caller, the lock and rejection. */
  lemma HandedLedger(p: Pool, s: Step)
    requires Ledger(p) && Enabled(p, s) && (s.Ask? || s.Lock? || s.Refuse? || s.SystemError?)
    requires s.Refuse? || s.SystemError? ==> p.starting.task in p.place && p.place[p.starting.task] == Holding
    ensures Ledger(Apply(p, s))
  {
    var q := Apply(p, s);
    var u := if s.Ask? || s.Lock? then s.task else p.starting.task;
    assert forall t | t != u :: (t in q.place <==> t in p.place) && (t in p.place ==> q.place[t] == p.place[t]);
    forall t ensures Holds(q.starting, t) <==> t in q.place && q.place[t] == Holding {
      assert Holds(p.starting, t) <==> t in p.place && p.place[t] == Holding;
    }
    forall t, w ensures (w in q.workers && q.workers[w] == Running(t)) <==> (t in q.place && q.place[t] == On(w)) {
      assert (w in p.workers && p.workers[w] == Running(t)) <==> (t in p.place && p.place[t] == On(w));
    }
  }

  /** Every step of every party keeps the invariant. */
  lemma StepInv(p: Pool, s: Step)
    requires Inv(p) && Enabled(p, s)
    ensures Inv(Apply(p, s))
  {
    StepCounted(p, s);
    match s
    case Launch(w) => LaunchKeeps(p, w);
    case Enqueue => EnqueueKeeps(p);
    case Finish(w) => EndingKeeps(p, w, Fetching, p.leaked);
    case Throw(w) => EndingKeeps(p, w, Draining, p.leaked + 1);
    case Next(w) =>
      if p.queue == [] {
        OtherKeeps(p, s);
      } else {
        DequeueKeeps(p, w);
      }
    case _ => OtherKeeps(p, s);
  }

  lemma {:induction false} RunInv(p: Pool, steps: seq<Step>, q: Pool)
    requires Inv(p) && Reaches(p, steps, q)
    ensures Inv(q)
    decreases |steps|
  {
    if steps != [] {
      StepInv(p, steps[0]);
      RunInv(Apply(p, steps[0]), steps[1..], q);
    }
  }

  // ---- no accepted task is lost ----

  predicate AcceptedAt(at: Place) {
    at.Queued? || at.On? || at.Done?
  }

  /** How far a task has come. */
  function Rank(at: Place): nat {
    match at
    case Waiting => 0
    case Holding => 1
    case Queued => 2
    case On(_) => 3
    case Done => 4
    case Rejected => 4
  }

  /** No step forgets a task or moves it back; finished or rejected tasks stay so, accepted ones are never rejected. */
  lemma PlaceForward(p: Pool, s: Step, t: Task)
    requires Inv(p) && Enabled(p, s) && t in p.place
    ensures var q := Apply(p, s);
            && t in q.place
            && Rank(p.place[t]) <= Rank(q.place[t])
            && (p.place[t].Done? || p.place[t].Rejected? ==> q.place[t] == p.place[t])
            && (p.place[t].On? ==> q.place[t] == p.place[t] || q.place[t].Done?)
            && (AcceptedAt(p.place[t]) ==> AcceptedAt(q.place[t]))
  {
    if p.starting.Trying? || p.starting.TurnedAway? {
      assert Holds(p.starting, p.starting.task);
    }
    match s
    case Finish(w) => assert p.place[p.workers[w].task] == On(w);
    case Throw(w) => assert p.place[p.workers[w].task] == On(w);
    case Next(w) =>
      if p.queue != [] {
        assert p.queue[0] in p.queue;
      }
    case _ =>
  }

  /** Over a run: an accepted task is never forgotten, rejected or moved back. */
  lemma {:induction false} AcceptedStays(p: Pool, steps: seq<Step>, q: Pool, t: Task)
    requires Inv(p) && Reaches(p, steps, q) && t in p.place && AcceptedAt(p.place[t])
    ensures t in q.place && AcceptedAt(q.place[t]) && Rank(p.place[t]) <= Rank(q.place[t])
    decreases |steps|
  {
    if steps != [] {
      PlaceForward(p, steps[0], t);
      StepInv(p, steps[0]);
      AcceptedStays(Apply(p, steps[0]), steps[1..], q, t);
    }
  }

  lemma OnOccupied(p: Pool, t: Task)
    requires Ledger(p) && t in p.place
    ensures p.place[t].On? ==> p.place[t].thread in p.workers
  {
  }

  /** How often a task threw. */
  function Throws(steps: seq<Step>): nat
    decreases |steps|
  {
    if steps == [] then 0 else (if steps[0].Throw? then 1 else 0) + Throws(steps[1..])
  }

  lemma {:induction false} LeakedIs(p: Pool, steps: seq<Step>, q: Pool)
    requires Reaches(p, steps, q)
    ensures q.leaked == p.leaked + Throws(steps)
    decreases |steps|
  {
    if steps != [] {
      LeakedIs(Apply(p, steps[0]), steps[1..], q);
    }
  }

  /** The counter, with the thread just launched. */
  function Expected(p: Pool): int {
    p.active + if p.starting.Launched? then 1 else 0
  }

  predicate WillAsk(p: Pool, w: Thread) {
    w in p.workers && !p.workers[w].Draining?
  }

  lemma AskersIff(p: Pool)
    requires Counted(p)
    ensures (exists w :: WillAsk(p, w)) <==> Expected(p) > p.leaked
    ensures p.workers == map[] ==> Expected(p) == p.leaked
  {
    if Expected(p) > p.leaked {
      assert Busy(p.workers) != {};
      var w :| w in Busy(p.workers);
      assert WillAsk(p, w);
    } else {
      assert Busy(p.workers) == {};
      forall w ensures !WillAsk(p, w) {
        assert w !in Busy(p.workers);
      }
    }
  }

  /**
   In every reachable state: tasks left the queue in the order they entered it; every accepted task is queued, on one
   thread or finished, and has begun at most once; some thread is going to ask for a task exactly when the counter is
   greater than the number of tasks that threw. So as long as none has, a queued task has such a thread, and when no
   pool thread is occupied nothing is queued and every accepted task has finished.
   */
  lemma NoTaskLost(capacity: nat, limit: Limit, steps: seq<Step>, p: Pool)
    requires Reaches(Initial(capacity, limit), steps, p)
    ensures Inv(p)
    ensures OutOfQueue(p.begun) <= p.pushed
    ensures (exists w :: WillAsk(p, w)) <==> Expected(p) > Throws(steps)
    ensures p.queue != [] ==> p.active > 0 && (Throws(steps) == 0 ==> exists w :: WillAsk(p, w))
    ensures p.workers == map[] ==>
              && Expected(p) == Throws(steps)
              && (forall t :: t in p.place && AcceptedAt(p.place[t]) ==> p.place[t].Done? || t in p.queue)
              && (Throws(steps) == 0 ==> p.queue == [] && p.active == 0)
  {
    InitialInv(capacity, limit);
    RunInv(Initial(capacity, limit), steps, p);
    LeakedIs(Initial(capacity, limit), steps, p);
    AskersIff(p);
    if p.workers == map[] {
      forall t | t in p.place && AcceptedAt(p.place[t]) ensures p.place[t].Done? || t in p.queue {
        assert p.place[t] == Queued ==> t in p.queue;
        OnOccupied(p, t);
      }
    }
  }

  /** Tasks are queued and no thread is going to ask for them. */
  ghost predicate Stranded(p: Pool) {
    p.queue != [] && forall w :: !WillAsk(p, w)
  }

  /**
   Queued tasks are stranded exactly when the counter, positive as it is, stands for threads alone whose task threw; and
   they stay so, with more and more tasks behind them, until some `start` finds a thread for a task of its own.
   */
  lemma {:induction false} StrandedUntilLaunch(p: Pool, steps: seq<Step>, q: Pool)
    requires Inv(p) && Reaches(p, steps, q)
    ensures Stranded(p) <==> p.queue != [] && Expected(p) == p.leaked
    ensures Stranded(p) && (forall s | s in steps :: !s.Launch?) ==> Stranded(q) && p.queue <= q.queue
    decreases |steps|
  {
    AskersIff(p);
    assert |Busy(p.workers)| >= 0;
    if Stranded(p) && steps != [] && !steps[0].Launch? {
      var next := Apply(p, steps[0]);
      StrandedStep(p, steps[0]);
      StepInv(p, steps[0]);
      StrandedUntilLaunch(next, steps[1..], q);
    }
  }

  lemma StrandedStep(p: Pool, s: Step)
    requires Stranded(p) && Enabled(p, s) && !s.Launch?
    ensures Stranded(Apply(p, s)) && p.queue <= Apply(p, s).queue
  {
    var q := Apply(p, s);
    forall w ensures !WillAsk(q, w) {
      assert !WillAsk(p, w);
    }
    match s
    case Finish(w) => assert WillAsk(p, w);
    case Throw(w) => assert WillAsk(p, w);
    case Next(w) => assert WillAsk(p, w);
    case _ =>
  }

  lemma Two(p: Pool, s: Step, t: Step)
    requires Enabled(p, s) && Enabled(Apply(p, s), t)
    ensures Reaches(p, [s, t], Apply(Apply(p, s), t))
  {
    var q := Apply(Apply(p, s), t);
    assert Reaches(q, [], q);
    assert [t][1..] == [] && [s, t][1..] == [t];
    assert Reaches(Apply(p, s), [t], q);
  }

  lemma Four(p: Pool, s: Step, t: Step, u: Step, v: Step)
    requires Enabled(p, s) && Enabled(Apply(p, s), t)
    requires var q := Apply(Apply(p, s), t); Enabled(q, u) && Enabled(Apply(q, u), v)
    ensures var q := Apply(Apply(p, s), t); Reaches(p, [s, t, u, v], Apply(Apply(q, u), v))
  {
    var q := Apply(Apply(p, s), t);
    Two(p, s, t);
    Two(q, u, v);
    ReachesOn(p, [s, t], q, [u, v], Apply(Apply(q, u), v));
    assert [s, t] + [u, v] == [s, t, u, v];
  }

  /** The first task runs on the only thread. */
  lemma FirstRuns() returns (p: Pool)
    ensures Reaches(Initial(1, Unbound), [Ask(0), Lock(0), Launch(0), Count], p)
    ensures p == Pool(1, Unbound, map[0 := Running(0)], 1, [], Free, false, map[0 := On(0)], [], [Begun(0, false)], 0)
  {
    var p0 := Initial(1, Unbound);
    var p2 := Apply(Apply(p0, Ask(0)), Lock(0));
    assert p2 == p0.(place := map[0 := Holding], starting := Trying(0));
    Four(p0, Ask(0), Lock(0), Launch(0), Count);
    p := Apply(Apply(p2, Launch(0)), Count);
  }

  /** The second task is queued behind it. */
  lemma SecondQueued(p: Pool) returns (q: Pool)
    requires p == Pool(1, Unbound, map[0 := Running(0)], 1, [], Free, false, map[0 := On(0)], [], [Begun(0, false)], 0)
    ensures Reaches(p, [Ask(1), Lock(1), NoThread, Enqueue], q)
    ensures q == p.(queue := [1], pushed := [1], place := map[0 := On(0), 1 := Queued])
  {
    var p2 := Apply(Apply(p, Ask(1)), Lock(1));
    assert p2 == p.(place := map[0 := On(0), 1 := Holding], starting := Trying(1));
    Four(p, Ask(1), Lock(1), NoThread, Enqueue);
    q := Apply(Apply(p2, NoThread), Enqueue);
  }

  /** One thread and two tasks: the second is queued, the first throws, and the second stays in the queue. */
  lemma ThrowStrands() returns (steps: seq<Step>, p: Pool)
    ensures Reaches(Initial(1, Unbound), steps, p)
    ensures Stranded(p) && p.workers == map[] && p.queue == [1]
  {
    var running := FirstRuns();
    var queued := SecondQueued(running);
    Two(queued, Throw(0), Exit(0));
    p := Apply(Apply(queued, Throw(0)), Exit(0));
    steps := [Ask(1), Lock(1), NoThread, Enqueue] + [Throw(0), Exit(0)];
    ReachesOn(running, [Ask(1), Lock(1), NoThread, Enqueue], queued, [Throw(0), Exit(0)], p);
    ReachesOn(Initial(1, Unbound), [Ask(0), Lock(0), Launch(0), Count], running, steps, p);
    steps := [Ask(0), Lock(0), Launch(0), Count] + steps;
    assert p.workers == map[];
  }

  // ---- the retry loop of `start` can make progress ----

  /** A `start` holds the lock and has no thread yet, while no thread will ask for a task again. */
  predicate Waits(p: Pool) {
    (p.starting.Trying? || p.starting.TurnedAway?) && p.active == 0
  }

  /**
   While `start` finds no thread and the counter is 0, every occupied thread is past its last ask and can leave
   without the queue lock, and one departure is enough for the next attempt to find a thread.
   */
  lemma RetryWaitsForExits(p: Pool, w: Thread)
    requires Inv(p) && Waits(p) && p.capacity > 0
    ensures forall v :: v in p.workers ==> p.workers[v].Draining?
    ensures Full(p) ==> p.workers != map[]
    ensures p.starting.TurnedAway? ==> Enabled(p, Retry)
    ensures w in p.workers ==>
              && Enabled(p, Exit(w)) && !Full(Apply(p, Exit(w)))
              && (p.starting.Trying? ==> Enabled(Apply(p, Exit(w)), Launch(w)))
              && (p.starting.TurnedAway? ==> Enabled(Apply(Apply(p, Exit(w)), Retry), Launch(w)))
  {
    assert Busy(p.workers) == {};
    forall v | v in p.workers ensures p.workers[v].Draining? {
      assert v !in Busy(p.workers);
    }
    if w in p.workers {
      BusyDrop(p.workers, w);
    }
  }

  /**
   Meanwhile nobody can undo that progress: until the attempt itself gets a thread or fails, no step occupies a thread
   and only a departure changes the threads.
   */
  lemma RetryMeasure(p: Pool, s: Step)
    requires Inv(p) && Waits(p) && p.capacity > 0 && Enabled(p, s)
    ensures var q := Apply(p, s);
            && q.active == 0
            && (s.Launch? || s.SystemError? || (Waits(q) && q.starting.task == p.starting.task))
            && (if s.Exit? then |q.workers| == |p.workers| - 1 else s.Launch? || q.workers == p.workers)
  {
    RetryWaitsForExits(p, 0);
    match s
    case Exit(w) => BusyDrop(p.workers, w);
    case _ =>
  }

  // ---- executions put together ----

  /** `q` can be reached from `p`. */
  ghost predicate Leads(p: Pool, q: Pool) {
    exists steps :: Reaches(p, steps, q)
  }

  lemma LeadsSelf(p: Pool)
    ensures Leads(p, p)
  {
    assert Reaches(p, [], p);
  }

  lemma {:induction false} ReachesOn(p: Pool, first: seq<Step>, q: Pool, second: seq<Step>, r: Pool)
    requires Reaches(p, first, q) && Reaches(q, second, r)
    ensures Reaches(p, first + second, r)
    decreases |first|
  {
    if first == [] {
      assert first + second == second;
    } else {
      assert (first + second)[1..] == first[1..] + second;
      ReachesOn(Apply(p, first[0]), first[1..], q, second, r);
    }
  }

  lemma LeadsOn(p: Pool, q: Pool, r: Pool)
    requires Leads(p, q) && Leads(q, r)
    ensures Leads(p, r)
  {
    var first :| Reaches(p, first, q);
    var second :| Reaches(q, second, r);
    ReachesOn(p, first, q, second, r);
  }

  lemma LeadsThen(p: Pool, q: Pool, s: Step)
    requires Leads(p, q) && Enabled(q, s)
    ensures Leads(p, Apply(q, s))
  {
    assert Reaches(Apply(q, s), [], Apply(q, s));
    assert Reaches(q, [s], Apply(q, s));
    LeadsOn(p, q, Apply(q, s));
  }

  lemma LeadsForward(p: Pool, q: Pool, t: Task)
    requires Inv(p) && Leads(p, q) && t in p.place && AcceptedAt(p.place[t])
    ensures t in q.place && AcceptedAt(q.place[t]) && (p.place[t].Done? ==> q.place[t].Done?)
  {
    var steps :| Reaches(p, steps, q);
    AcceptedStays(p, steps, q, t);
  }

  // ---- what the other parties cannot do ----

  /** The steps that need no queue lock. */
  predicate Lockless(s: Step) {
    s.Ask? || s.Finish? || s.Throw? || s.Exit? || s.Shutdown?
  }

  /** While one caller holds the lock the others leave lock, queue and counter alone, and threads can only leave. */
  lemma {:induction false} WhileHeld(p: Pool, steps: seq<Step>, q: Pool)
    requires Reaches(p, steps, q) && forall s | s in steps :: Lockless(s)
    ensures q.starting == p.starting && q.queue == p.queue && q.active == p.active
    ensures q.workers.Keys <= p.workers.Keys
    decreases |steps|
  {
    if steps != [] {
      var next := Apply(p, steps[0]);
      assert Lockless(steps[0]);
      assert next.workers.Keys <= p.workers.Keys;
      WhileHeld(next, steps[1..], q);
    }
  }

  /** A task that waits for the lock goes on waiting until it is its turn. */
  lemma {:induction false} WaitingStays(p: Pool, steps: seq<Step>, q: Pool, t: Task)
    requires Inv(p) && Reaches(p, steps, q) && t in p.place && p.place[t] == Waiting
    requires Lock(t) !in steps
    ensures t in q.place && q.place[t] == Waiting
    decreases |steps|
  {
    if steps != [] {
      var next := Apply(p, steps[0]);
      HolderHolds(p);
      assert steps[0] in steps;
      StillWaiting(p, steps[0], t);
      StepInv(p, steps[0]);
      WaitingStays(next, steps[1..], q, t);
    }
  }

  lemma StillWaiting(p: Pool, s: Step, t: Task)
    requires Inv(p) && Enabled(p, s) && t in p.place && p.place[t] == Waiting && s != Lock(t)
    ensures t in Apply(p, s).place && Apply(p, s).place[t] == Waiting
  {
    HolderHolds(p);
    match s
    case Finish(w) => assert p.place[p.workers[w].task] == On(w);
    case Throw(w) => assert p.place[p.workers[w].task] == On(w);
    case Next(w) =>
      if p.queue != [] {
        assert p.queue[0] in p.queue;
      }
    case _ =>
  }

  /** A step of thread `w` itself, or one that occupies it. */
  predicate ByThread(s: Step, w: Thread) {
    s == Finish(w) || s == Throw(w) || s == Next(w) || s == Exit(w) || s == Launch(w)
  }

  /** What the others do leaves an occupied thread as it is. */
  lemma {:induction false} ThreadStays(p: Pool, steps: seq<Step>, q: Pool, w: Thread)
    requires Reaches(p, steps, q) && w in p.workers && forall s | s in steps :: !ByThread(s, w)
    ensures w in q.workers && q.workers[w] == p.workers[w]
    decreases |steps|
  {
    if steps != [] {
      var next := Apply(p, steps[0]);
      assert !ByThread(steps[0], w);
      assert w in next.workers && next.workers[w] == p.workers[w];
      ThreadStays(next, steps[1..], q, w);
    }
  }

  /** How many tasks enter the queue. */
  function Arrivals(steps: seq<Step>): nat
    decreases |steps|
  {
    if steps == [] then 0 else (if steps[0].Enqueue? then 1 else 0) + Arrivals(steps[1..])
  }

  lemma {:induction false} QueueGrowth(p: Pool, steps: seq<Step>, q: Pool)
    requires Reaches(p, steps, q)
    ensures |q.queue| <= |p.queue| + Arrivals(steps)
    decreases |steps|
  {
    if steps != [] {
      QueueGrowth(Apply(p, steps[0]), steps[1..], q);
    }
  }
}
