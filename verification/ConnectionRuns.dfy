/**
 Runs of the connection pool with the requests that use it: who holds which connection, and which keep-alive task
 can still remove one.
 */
module ConnectionRuns {
  import opened Options
  import opened ConnectionPoolSpec
  import opened Text

  /** The pool and, by holder, the connections that body streams and engines hold. */
  datatype World<!C> = World(pool: Pool<C>, holders: map<nat, C>)

  /**
   What can happen. Cancelling and taking a connection out of the pool may hit any connection, because an engine
   that is cancelled uses the reference it had, whoever holds that connection by then.
   */
  datatype Step<C> =
    | Obtain(h: nat, c: C, want: Origin)
    | Open(h: nat, c: C, want: Origin)
    | GiveBack(h: nat, reusable: bool, expires: int, victim: Option<C>)
    | HandOver(h: nat, to: nat)
    | Unpool(c: C)
    | CancelConn(c: C)
    | TimerRuns(id: nat)

  predicate Enabled<C>(w: World<C>, s: Step<C>, idleMax: nat) {
    match s
    case Obtain(h, c, want) => h !in w.holders && Reusable(w.pool, c, want)
    case Open(h, c, want) => h !in w.holders && c !in w.pool.conns
    case GiveBack(h, reusable, expires, victim) =>
      && h in w.holders
      && (w.holders[h] in w.pool.controls ==> w.holders[h] in w.pool.conns)
      && (reusable && Parks(w.pool, w.holders[h]) ==> Evicts(Parked(w.pool, w.holders[h], expires), idleMax, victim))
    case HandOver(h, to) => h in w.holders && to !in w.holders
    case Unpool(c) => c in w.pool.conns
    case CancelConn(c) => c in w.pool.conns
    case TimerRuns(id) => id < w.pool.timers
  }

  function Apply<C>(w: World<C>, s: Step<C>, idleMax: nat): World<C>
    requires Enabled(w, s, idleMax)
  {
    match s
    case Obtain(h, c, want) => World(Reuse(w.pool, c), w.holders[h := c])
    case Open(h, c, want) => World(Create(w.pool, c, want), w.holders[h := c])
    case GiveBack(h, reusable, expires, victim) =>
      World(if reusable then Release(w.pool, w.holders[h], expires, victim).0 else Remove(w.pool, w.holders[h]),
            w.holders - {h})
    case HandOver(h, to) => w.(holders := (w.holders - {h})[to := w.holders[h]])
    case Unpool(c) => w.(pool := Remove(w.pool, c))
    case CancelConn(c) => w.(pool := Cancel(w.pool, c))
    case TimerRuns(id) => w.(pool := Fire(w.pool, id))
  }

  /** The pool is in order and no connection is shared. */
  ghost predicate Exclusive<C>(w: World<C>, idleMax: nat) {
    PoolInv(w.pool, idleMax) && Alone(w)
  }

  /** A held connection is known and in use, and has one holder only. */
  ghost predicate Alone<C>(w: World<C>) {
    && (forall h | h in w.holders :: w.holders[h] in w.pool.conns && !w.pool.conns[w.holders[h]].idle)
    && (forall h, g | h in w.holders && g in w.holders && h != g :: w.holders[h] != w.holders[g])
  }

  lemma InitialExclusive<C>(idleMax: nat)
    ensures Exclusive<C>(World(Pool(map[], map[], 0), map[]), idleMax)
  {
    EmptyKeeps<C>(idleMax);
  }

  ghost predicate Reaches<C>(w: World<C>, steps: seq<Step<C>>, idleMax: nat, w': World<C>)
    decreases |steps|
  {
    if steps == [] then w' == w
    else Enabled(w, steps[0], idleMax) && Reaches(Apply(w, steps[0], idleMax), steps[1..], idleMax, w')
  }

  lemma StepKeepsPool<C>(w: World<C>, s: Step<C>, idleMax: nat)
    requires PoolInv(w.pool, idleMax) && Enabled(w, s, idleMax)
    ensures PoolInv(Apply(w, s, idleMax).pool, idleMax)
  {
    match s
    case Obtain(h, c, want) => ReuseKeeps(w.pool, c, idleMax);
    case Open(h, c, want) => CreateKeeps(w.pool, c, want, idleMax);
    case GiveBack(h, reusable, expires, victim) =>
      if reusable {
        ReleaseKeeps(w.pool, w.holders[h], expires, victim, idleMax);
      } else {
        RemoveKeeps(w.pool, w.holders[h], idleMax);
      }
    case HandOver(h, to) =>
    case Unpool(c) => RemoveKeeps(w.pool, c, idleMax);
    case CancelConn(c) => CancelKeeps(w.pool, c, idleMax);
    case TimerRuns(id) => FireKeeps(w.pool, id, idleMax);
  }

  lemma StepExclusive<C>(w: World<C>, s: Step<C>, idleMax: nat)
    requires Exclusive(w, idleMax) && Enabled(w, s, idleMax)
    ensures Exclusive(Apply(w, s, idleMax), idleMax)
  {
    StepKeepsPool(w, s, idleMax);
    StepKeepsAlone(w, s, idleMax);
  }

  lemma StepKeepsAlone<C>(w: World<C>, s: Step<C>, idleMax: nat)
    requires Alone(w) && Enabled(w, s, idleMax)
    ensures Alone(Apply(w, s, idleMax))
  {
    match s
    case GiveBack(h, reusable, expires, victim) =>
      var w' := Apply(w, s, idleMax);
      assert forall d | d in w.pool.conns && d != w.holders[h] ::
          d in w'.pool.conns && w'.pool.conns[d] == w.pool.conns[d];
    case _ =>
  }

  /** In every run no connection is held by two requests, and the pool stays in order. */
  lemma {:induction false} NoSharing<C>(w: World<C>, steps: seq<Step<C>>, idleMax: nat, w': World<C>)
    requires Exclusive(w, idleMax) && Reaches(w, steps, idleMax, w')
    ensures Exclusive(w', idleMax)
    decreases |steps|
  {
    if steps != [] {
      StepExclusive(w, steps[0], idleMax);
      NoSharing(Apply(w, steps[0], idleMax), steps[1..], idleMax, w');
    }
  }

  // ---- keep-alive tasks ----

  /** A task that no pooled connection has as its current one. */
  predicate Stale<C>(p: Pool<C>, id: nat) {
    id < p.timers && forall c | c in p.controls :: !Owns(p, c, id)
  }

  /**
   A task that runs, at any moment, removes at most one connection: one that is idle, that nobody holds, and whose
   latest release made this very task. Everything else stays.
   */
  lemma TimerRemovesOnlyItsIdle<C>(w: World<C>, id: nat, idleMax: nat, c: C)
    requires Exclusive(w, idleMax) && c in w.pool.controls
    ensures var q := Fire(w.pool, id);
            && (c !in q.controls <==> Owns(w.pool, c, id))
            && (c in q.controls ==> q.controls[c] == w.pool.controls[c])
            && (c !in q.controls ==> w.pool.conns[c].idle && (forall h | h in w.holders :: w.holders[h] != c))
            && (c !in q.controls ==> forall d | d in w.pool.controls && d != c :: d in q.controls)
            && q.conns == w.pool.conns
  {
  }

  lemma StaleTimerDoesNothing<C>(p: Pool<C>, id: nat)
    requires Stale(p, id)
    ensures Fire(p, id) == p
  {
    assert Fire(p, id).controls == p.controls;
  }

  /** Reuse makes the task of the connection's latest release stale. */
  lemma ReuseMakesStale<C>(p: Pool<C>, c: C, id: nat, idleMax: nat)
    requires PoolInv(p, idleMax) && Owns(p, c, id)
    ensures Stale(Reuse(p, c), id)
  {
  }

  lemma StaysStale<C>(w: World<C>, s: Step<C>, idleMax: nat, id: nat)
    requires Exclusive(w, idleMax) && Enabled(w, s, idleMax) && Stale(w.pool, id)
    ensures Stale(Apply(w, s, idleMax).pool, id)
  {
    var q := Apply(w, s, idleMax).pool;
    forall c | c in q.controls ensures !Owns(q, c, id) {
      assert c in w.pool.controls ==> !Owns(w.pool, c, id);
    }
  }

  /**
   Once a connection has been reused, the task of its earlier release can never again remove anything, however the
   run goes on: not the connection in use, and not the connection reused and released again.
   */
  lemma {:induction false} StaleForever<C>(w: World<C>, steps: seq<Step<C>>, idleMax: nat, w': World<C>, id: nat)
    requires Exclusive(w, idleMax) && Reaches(w, steps, idleMax, w') && Stale(w.pool, id)
    ensures Stale(w'.pool, id) && Fire(w'.pool, id) == w'.pool
    decreases |steps|
  {
    if steps == [] {
      StaleTimerDoesNothing(w.pool, id);
    } else {
      StaysStale(w, steps[0], idleMax, id);
      StepExclusive(w, steps[0], idleMax);
      StaleForever(Apply(w, steps[0], idleMax), steps[1..], idleMax, w', id);
    }
  }

  // ---- the task of the latest release ----

  /** The step hands `c` out again or gives it back again. */
  predicate Touches<C>(w: World<C>, s: Step<C>, c: C) {
    match s
    case Obtain(h, d, want) => d == c
    case GiveBack(h, reusable, expires, victim) => h in w.holders && w.holders[h] == c
    case _ => false
  }

  /** No step of the run hands `c` out or gives it back. */
  ghost predicate Untouched<C>(w: World<C>, steps: seq<Step<C>>, idleMax: nat, c: C)
    decreases |steps|
  {
    steps == []
    || (&& !Touches(w, steps[0], c) && Enabled(w, steps[0], idleMax)
        && Untouched(Apply(w, steps[0], idleMax), steps[1..], idleMax, c))
  }

  /** A release that keeps its connection makes a task, which is then its current one. */
  lemma ReleaseMakesTask<C>(w: World<C>, h: nat, expires: int, victim: Option<C>, idleMax: nat)
    requires Exclusive(w, idleMax) && Enabled(w, GiveBack(h, true, expires, victim), idleMax)
    requires Parks(w.pool, w.holders[h]) && victim != Some(w.holders[h])
    ensures Owns(Apply(w, GiveBack(h, true, expires, victim), idleMax).pool, w.holders[h], w.pool.timers)
  {
  }

  lemma OwnedStep<C>(w: World<C>, s: Step<C>, idleMax: nat, c: C, id: nat)
    requires Exclusive(w, idleMax) && Enabled(w, s, idleMax) && Owns(w.pool, c, id)
    ensures var w' := Apply(w, s, idleMax);
            && (Owns(w'.pool, c, id) <==> !Touches(w, s, c) && c in w'.pool.controls)
            && (!Owns(w'.pool, c, id) ==> Stale(w'.pool, id))
  {
    var w' := Apply(w, s, idleMax);
    forall d | d in w'.pool.controls && d != c ensures !Owns(w'.pool, d, id) {
      assert d in w.pool.controls ==> !Owns(w.pool, d, id);
    }
  }

  /**
   Over any run, a task made by a release still belongs to its connection exactly when the connection has been neither
   handed out nor given back since, and has not left the pool; and it never belongs to another one.
   */
  lemma {:induction false} OwnedIffUntouched<C>(w: World<C>, steps: seq<Step<C>>, idleMax: nat, w': World<C>,
                                                 c: C, id: nat)
    requires Exclusive(w, idleMax) && Reaches(w, steps, idleMax, w') && Owns(w.pool, c, id)
    ensures Owns(w'.pool, c, id) <==> Untouched(w, steps, idleMax, c) && c in w'.pool.controls
    ensures forall d | d in w'.pool.controls && d != c :: !Owns(w'.pool, d, id)
    decreases |steps|
  {
    if steps != [] {
      var next := Apply(w, steps[0], idleMax);
      StepExclusive(w, steps[0], idleMax);
      OwnedStep(w, steps[0], idleMax, c, id);
      if Owns(next.pool, c, id) {
        OwnedIffUntouched(next, steps[1..], idleMax, w', c, id);
      } else {
        StaleForever(next, steps[1..], idleMax, w', id);
        if c !in next.pool.controls {
          NeverBack(next, steps[1..], idleMax, w', c);
        }
      }
    }
  }

  /**
   The keep-alive task made by a release runs at any later moment, also after it was cancelled: it removes the
   connection of that release exactly when that was its latest one, and touches nothing else. A release that gives up
   the very connection it parks leaves a task that never does anything.
   */
  lemma TimerRemovesOnlyLatest<C>(w: World<C>, h: nat, expires: int, victim: Option<C>, steps: seq<Step<C>>,
                                  idleMax: nat, w': World<C>)
    requires Exclusive(w, idleMax) && Enabled(w, GiveBack(h, true, expires, victim), idleMax)
    requires Parks(w.pool, w.holders[h])
    requires Reaches(Apply(w, GiveBack(h, true, expires, victim), idleMax), steps, idleMax, w')
    ensures var c, released := w.holders[h], Apply(w, GiveBack(h, true, expires, victim), idleMax);
            var q := Fire(w'.pool, w.pool.timers);
            && (c in w'.pool.controls ==> (c !in q.controls <==> Untouched(released, steps, idleMax, c)))
            && (victim == Some(c) ==> c !in w'.pool.controls && q == w'.pool)
            && (forall d | d in w'.pool.controls && d != c :: d in q.controls && q.controls[d] == w'.pool.controls[d])
            && q.conns == w'.pool.conns
  {
    var c, released := w.holders[h], Apply(w, GiveBack(h, true, expires, victim), idleMax);
    StepExclusive(w, GiveBack(h, true, expires, victim), idleMax);
    if victim == Some(c) {
      GivenUpAtOnce(w, h, expires, idleMax);
      NeverBack(released, steps, idleMax, w', c);
      StaleForever(released, steps, idleMax, w', w.pool.timers);
    } else {
      ReleaseMakesTask(w, h, expires, victim, idleMax);
      OwnedIffUntouched(released, steps, idleMax, w', c, w.pool.timers);
    }
  }

  /** With an idle maximum of zero, or a clock that went back, a release can give up its own connection. */
  lemma GivenUpAtOnce<C>(w: World<C>, h: nat, expires: int, idleMax: nat)
    requires h in w.holders
    requires Exclusive(w, idleMax) && Enabled(w, GiveBack(h, true, expires, Some(w.holders[h])), idleMax)
    requires Parks(w.pool, w.holders[h])
    ensures var released := Apply(w, GiveBack(h, true, expires, Some(w.holders[h])), idleMax);
            Stale(released.pool, w.pool.timers) && w.holders[h] !in released.pool.controls
  {
  }

  // ---- what other requests cannot do ----

  /** A step that is not taken by holder `h` and gives it nothing. */
  predicate NotBy<C>(s: Step<C>, h: nat) {
    match s
    case Obtain(g, c, want) => g != h
    case Open(g, c, want) => g != h
    case GiveBack(g, reusable, expires, victim) => g != h
    case HandOver(g, to) => g != h && to != h
    case Unpool(c) => true
    case CancelConn(c) => true
    case TimerRuns(id) => true
  }

  /** Known connections stay known, and none that is out of the pool comes back into it. */
  ghost predicate StaysOut<C>(w: World<C>, w': World<C>) {
    forall c | c in w.pool.conns :: c in w'.pool.conns && (c !in w.pool.controls ==> c !in w'.pool.controls)
  }

  ghost predicate SameHeld<C>(w: World<C>, w': World<C>, h: nat) {
    if h in w.holders then h in w'.holders && w'.holders[h] == w.holders[h] else h !in w'.holders
  }

  lemma StepOthersKeep<C>(w: World<C>, s: Step<C>, idleMax: nat, h: nat)
    requires Exclusive(w, idleMax) && Enabled(w, s, idleMax) && NotBy(s, h)
    ensures StaysOut(w, Apply(w, s, idleMax)) && SameHeld(w, Apply(w, s, idleMax), h)
  {
    match s
    case Obtain(g, c, want) =>
    case Open(g, c, want) =>
    case GiveBack(g, reusable, expires, victim) =>
    case HandOver(g, to) =>
    case Unpool(c) =>
    case CancelConn(c) =>
    case TimerRuns(id) =>
  }

  ghost predicate NoneBy<C>(steps: seq<Step<C>>, h: nat)
    decreases |steps|
  {
    steps == [] || (NotBy(steps[0], h) && NoneBy(steps[1..], h))
  }

  /**
   However other requests and timers run on, a holder keeps its connection and nobody else gets it, and a connection
   that has left the pool never returns.
   */
  lemma {:induction false} OthersKeep<C>(w: World<C>, steps: seq<Step<C>>, idleMax: nat, w': World<C>, h: nat)
    requires Exclusive(w, idleMax) && Reaches(w, steps, idleMax, w') && NoneBy(steps, h)
    ensures Exclusive(w', idleMax) && StaysOut(w, w') && SameHeld(w, w', h)
    decreases |steps|
  {
    if steps != [] {
      var next := Apply(w, steps[0], idleMax);
      StepExclusive(w, steps[0], idleMax);
      StepOthersKeep(w, steps[0], idleMax, h);
      OthersKeep(next, steps[1..], idleMax, w', h);
      StaysOutThrough(w, next, w');
    }
  }

  lemma StaysOutThrough<C>(a: World<C>, b: World<C>, c: World<C>)
    requires StaysOut(a, b) && StaysOut(b, c)
    ensures StaysOut(a, c)
  {
  }

  lemma StepStaysOut<C>(w: World<C>, s: Step<C>, idleMax: nat)
    requires Exclusive(w, idleMax) && Enabled(w, s, idleMax)
    ensures StaysOut(w, Apply(w, s, idleMax))
  {
    match s
    case Obtain(g, c, want) =>
    case Open(g, c, want) =>
    case GiveBack(g, reusable, expires, victim) =>
    case HandOver(g, to) =>
    case Unpool(c) =>
    case CancelConn(c) =>
    case TimerRuns(id) =>
  }

  lemma {:induction false} RunStaysOut<C>(w: World<C>, steps: seq<Step<C>>, idleMax: nat, w': World<C>)
    requires Exclusive(w, idleMax) && Reaches(w, steps, idleMax, w')
    ensures StaysOut(w, w')
    decreases |steps|
  {
    if steps != [] {
      var next := Apply(w, steps[0], idleMax);
      StepExclusive(w, steps[0], idleMax);
      StepStaysOut(w, steps[0], idleMax);
      RunStaysOut(next, steps[1..], idleMax, w');
      StaysOutThrough(w, next, w');
    }
  }

  /** A cancelled connection is never anything else again. */
  lemma {:induction false} StaysCancelled<C>(w: World<C>, steps: seq<Step<C>>, idleMax: nat, w': World<C>, c: C)
    requires Reaches(w, steps, idleMax, w') && c in w.pool.conns && w.pool.conns[c].cancelled
    ensures c in w'.pool.conns && w'.pool.conns[c].cancelled
    decreases |steps|
  {
    if steps != [] {
      StepStaysCancelled(w, steps[0], idleMax, c);
      StaysCancelled(Apply(w, steps[0], idleMax), steps[1..], idleMax, w', c);
    }
  }

  lemma StepStaysCancelled<C>(w: World<C>, s: Step<C>, idleMax: nat, c: C)
    requires Enabled(w, s, idleMax) && c in w.pool.conns && w.pool.conns[c].cancelled
    ensures var w' := Apply(w, s, idleMax);
            c in w'.pool.conns && w'.pool.conns[c].cancelled
  {
    match s
    case GiveBack(h, reusable, expires, victim) =>
    case _ =>
  }

  /** A known connection that has left the pool never returns. */
  lemma {:induction false} NeverBack<C>(w: World<C>, steps: seq<Step<C>>, idleMax: nat, w': World<C>, c: C)
    requires Exclusive(w, idleMax) && Reaches(w, steps, idleMax, w') && c in w.pool.conns && c !in w.pool.controls
    ensures c in w'.pool.conns && c !in w'.pool.controls
    decreases |steps|
  {
    if steps != [] {
      StepExclusive(w, steps[0], idleMax);
      StepStaysOut(w, steps[0], idleMax);
      NeverBack(Apply(w, steps[0], idleMax), steps[1..], idleMax, w', c);
    }
  }

  /** Nobody can come to hold it either, so whoever still refers to it can do no harm to others. */
  lemma {:induction false} NeverHeld<C>(w: World<C>, steps: seq<Step<C>>, idleMax: nat, w': World<C>, c: C)
    requires Exclusive(w, idleMax) && Reaches(w, steps, idleMax, w') && c in w.pool.conns && c !in w.pool.controls
    requires forall h | h in w.holders :: w.holders[h] != c
    ensures c !in w'.pool.controls && forall h | h in w'.holders :: w'.holders[h] != c
    decreases |steps|
  {
    if steps != [] {
      var next := Apply(w, steps[0], idleMax);
      StepExclusive(w, steps[0], idleMax);
      StepStaysOut(w, steps[0], idleMax);
      assert forall h | h in next.holders :: next.holders[h] != c;
      NeverHeld(next, steps[1..], idleMax, w', c);
    }
  }

  // ---- where connections go ----

  lemma StepKeepsOrigin<C>(w: World<C>, s: Step<C>, idleMax: nat, c: C)
    requires Enabled(w, s, idleMax) && c in w.pool.conns
    ensures var w' := Apply(w, s, idleMax);
            c in w'.pool.conns && w'.pool.conns[c].origin == w.pool.conns[c].origin
  {
    match s
    case GiveBack(h, reusable, expires, victim) =>
    case _ =>
  }

  /** However a run goes on, a connection goes where it went. */
  lemma {:induction false} OriginStays<C>(w: World<C>, steps: seq<Step<C>>, idleMax: nat, w': World<C>, c: C)
    requires Reaches(w, steps, idleMax, w') && c in w.pool.conns
    ensures c in w'.pool.conns && w'.pool.conns[c].origin == w.pool.conns[c].origin
    decreases |steps|
  {
    if steps != [] {
      StepKeepsOrigin(w, steps[0], idleMax, c);
      OriginStays(Apply(w, steps[0], idleMax), steps[1..], idleMax, w', c);
    }
  }

  /**
   Whatever a step of a run hands out for a request goes where the request goes, then and in every later state: same
   scheme up to case, host, port, proxy and timeout, and over https the same root certificates.
   */
  lemma {:induction false} HandedOutFits<C>(w: World<C>, steps: seq<Step<C>>, idleMax: nat, w': World<C>, i: nat)
    requires Reaches(w, steps, idleMax, w') && i < |steps| && (steps[i].Obtain? || steps[i].Open?)
    ensures steps[i].c in w'.pool.conns
    ensures var have, want := w'.pool.conns[steps[i].c].origin, steps[i].want;
            && Same(have.scheme, want.scheme) && have.host == want.host && have.port == want.port
            && have.proxy == want.proxy && have.timeoutSec == want.timeoutSec
            && (Same(want.scheme, "https") ==>
                  have.rootCaDirectory == want.rootCaDirectory && have.rootCaFile == want.rootCaFile)
    decreases |steps|
  {
    var next := Apply(w, steps[0], idleMax);
    if i == 0 {
      OriginStays(next, steps[1..], idleMax, w', steps[0].c);
    } else {
      HandedOutFits(next, steps[1..], idleMax, w', i - 1);
    }
  }

  /**
   A connection that a run hands out again was opened earlier in the run, or known before it; and where it was opened
   for is where the request goes that gets it.
   */
  lemma {:induction false} ObtainedWasOpened<C>(w: World<C>, steps: seq<Step<C>>, idleMax: nat, w': World<C>, i: nat)
    returns (k: nat)
    requires Reaches(w, steps, idleMax, w') && i < |steps| && steps[i].Obtain? && steps[i].c !in w.pool.conns
    ensures k < i && steps[k].Open? && steps[k].c == steps[i].c
    ensures var had, want := steps[k].want, steps[i].want;
            && Same(had.scheme, want.scheme) && had.host == want.host && had.port == want.port
            && had.proxy == want.proxy && had.timeoutSec == want.timeoutSec
            && (Same(want.scheme, "https") ==>
                  had.rootCaDirectory == want.rootCaDirectory && had.rootCaFile == want.rootCaFile)
    decreases |steps|
  {
    var next := Apply(w, steps[0], idleMax);
    if steps[i].c in next.pool.conns {
      k := 0;
      OriginStays(next, steps[1..], idleMax, w', steps[i].c);
      HandedOutFits(w, steps, idleMax, w', i);
    } else {
      k := ObtainedWasOpened(next, steps[1..], idleMax, w', i - 1);
      k := k + 1;
    }
  }
}
