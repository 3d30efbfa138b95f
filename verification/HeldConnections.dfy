/** Obtaining and giving back pooled connections, each shown to be steps of `ConnectionRuns` by their holder. */
module HeldConnections {
  import opened ConnectionPool
  import opened Options
  import Pools = ConnectionPoolSpec
  import Runs = ConnectionRuns

  type World = Runs.World<ConnectionInternal>
  type Step = Runs.Step<ConnectionInternal>

  /** Holder `h` holds this connection, or none. */
  ghost predicate Holds(w: World, h: nat, connection: ConnectionInternal?) {
    if connection == null then h !in w.holders else h in w.holders && w.holders[h] == connection
  }

  /** Held connections are exclusive and the pool is in order. */
  ghost predicate InOrder(w: World, idleMax: nat) {
    Runs.Exclusive(w, idleMax) && Pools.Timely(w.pool)
  }

  /** From `w` this step leads to `w'`. */
  ghost predicate LeadsTo(w: World, step: Step, w': World, idleMax: nat) {
    Runs.Enabled(w, step, idleMax) && w' == Runs.Apply(w, step, idleMax)
  }

  /** The step by which holder `h` gives its connection back. */
  ghost predicate GivesBack(w: World, h: nat, step: Step, w': World, idleMax: nat) {
    step.GiveBack? && step.h == h && LeadsTo(w, step, w', idleMax)
  }

  // ---- giving back ----

  /**
   What becomes of a connection that is given back. One that can be used again, and is pooled and uncancelled still,
   is kept as idle with a task of its own, unless it is itself given up; any other is gone. One is given up only when
   as many are idle as may be.
   */
  lemma GivenBackSettles(w: World, h: nat, c: ConnectionInternal, step: Step, w': World, idleMax: nat)
    requires InOrder(w, idleMax) && Holds(w, h, c) && GivesBack(w, h, step, w', idleMax)
    ensures var kept := step.reusable && c in w.pool.controls && !w.pool.conns[c].cancelled;
            && (c in w'.pool.controls <==> kept && step.victim != Some(c))
            && (c in w'.pool.controls ==> w'.pool.controls[c] == Some(Pools.Timer(w.pool.timers, step.expires)))
            && (c in w'.pool.controls ==> c in w'.pool.conns && w'.pool.conns[c].idle)
            && (kept && |Pools.Idle(w.pool)| < idleMax ==> step.victim == None)
  {
    if step.reusable && Pools.Parks(w.pool, c) {
      Pools.ParkedTidy(w.pool, c, step.expires);
    }
  }

  lemma GaveBack(w: World, h: nat, c: ConnectionInternal, reusable: bool, expires: int,
                 victim: Option<ConnectionInternal>, idleMax: nat)
    returns (w': World)
    requires InOrder(w, idleMax) && Holds(w, h, c) && (reusable ==> expires < Pools.TIMEVAL_MAX)
    requires reusable && Pools.Parks(w.pool, c) ==> Pools.Evicts(Pools.Parked(w.pool, c, expires), idleMax, victim)
    ensures GivesBack(w, h, Runs.GiveBack(h, reusable, expires, victim), w', idleMax)
    ensures InOrder(w', idleMax) && Holds(w', h, null) && Runs.StaysOut(w, w')
    ensures w'.pool == if reusable then Pools.Release(w.pool, c, expires, victim).0 else Pools.Remove(w.pool, c)
  {
    var step := Runs.GiveBack(h, reusable, expires, victim);
    w' := Runs.Apply(w, step, idleMax);
    Runs.StepExclusive(w, step, idleMax);
    Runs.StepStaysOut(w, step, idleMax);
    if reusable {
      Pools.ReleaseKeeps(w.pool, c, expires, victim, idleMax);
    } else {
      Pools.RemoveKeeps(w.pool, c, idleMax);
    }
  }

  method GiveBack(pool: ConnectionPoolInternal, c: ConnectionInternal, reusable: bool, now: int,
                  ghost w: World, ghost h: nat)
    returns (ghost step: Step, ghost w': World)
    requires w.pool == pool.State() && InOrder(w, pool.keepAliveIdleCountMax)
    requires Holds(w, h, c) && (reusable ==> now + pool.keepAliveTimeout < Pools.TIMEVAL_MAX)
    modifies pool`controls, pool`timers, c`idle, c`listener, if c.listener == null then {} else {c.listener}
    ensures GivesBack(w, h, step, w', pool.keepAliveIdleCountMax) && step.reusable == reusable
    ensures reusable ==> step.expires == now + pool.keepAliveTimeout
    ensures w'.pool == pool.State() && InOrder(w', pool.keepAliveIdleCountMax) && Holds(w', h, null)
    ensures Runs.StaysOut(w, w') && (!reusable ==> c in w'.pool.conns && c !in w'.pool.controls)
    ensures reusable && c in w.pool.controls && old(c.listener) != null ==> old(c.listener).connection != c
  {
    if reusable {
      var ok, expires, victim, q := pool.ReleaseConnection(c, now, w.pool);
      w' := GaveBack(w, h, c, true, expires, victim, pool.keepAliveIdleCountMax);
      step := Runs.GiveBack(h, true, expires, victim);
    } else {
      var ok, q := pool.RemoveConnection(c, w.pool);
      w' := GaveBack(w, h, c, false, 0, None, pool.keepAliveIdleCountMax);
      step := Runs.GiveBack(h, false, 0, None);
    }
  }

  lemma HandedOver(w: World, h: nat, to: nat, idleMax: nat) returns (w': World)
    requires InOrder(w, idleMax) && h in w.holders && to !in w.holders
    ensures LeadsTo(w, Runs.HandOver(h, to), w', idleMax)
    ensures InOrder(w', idleMax) && Holds(w', h, null) && Holds(w', to, w.holders[h]) && w'.pool == w.pool
  {
    w' := Runs.Apply(w, Runs.HandOver(h, to), idleMax);
    Runs.StepExclusive(w, Runs.HandOver(h, to), idleMax);
  }

  // ---- obtaining ----

  lemma Took(w: World, h: nat, c: ConnectionInternal, step: Step, idleMax: nat) returns (w': World)
    requires InOrder(w, idleMax) && Holds(w, h, null) && Runs.Enabled(w, step, idleMax)
    requires (step.Obtain? || step.Open?) && step.h == h && step.c == c
    ensures LeadsTo(w, step, w', idleMax) && InOrder(w', idleMax) && Holds(w', h, c) && Runs.StaysOut(w, w')
    ensures w'.pool == if step.Obtain? then Pools.Reuse(w.pool, c) else Pools.Create(w.pool, c, step.want)
  {
    w' := Runs.Apply(w, step, idleMax);
    Runs.StepExclusive(w, step, idleMax);
    Runs.StepStaysOut(w, step, idleMax);
    if step.Obtain? {
      Pools.ReuseKeeps(w.pool, c, idleMax);
    } else {
      Pools.CreateKeeps(w.pool, c, step.want, idleMax);
    }
  }

  /** A connection of the pool that goes where the request goes, or a new one. */
  method Choose(pool: ConnectionPoolInternal, want: Pools.Origin, forceToCreate: bool, sessionMade: bool,
                ghost p: Pools.Pool<ConnectionInternal>)
    returns (c: ConnectionInternal?, reused: bool, ghost q: Pools.Pool<ConnectionInternal>)
    requires pool.Is(p)
    modifies pool`controls, pool`known, set d | d in pool.known :: d`idle
    ensures q == pool.State()
    ensures c == null <==> !reused && (!Pools.Supported(want.scheme) || !sessionMade)
    ensures c == null ==> q == p
    ensures reused ==> c != null && !forceToCreate && Pools.Reusable(p, c, want) && q == Pools.Reuse(p, c)
    ensures c != null && !reused ==> c !in p.conns && q == Pools.Create(p, c, want)
    ensures !reused && !forceToCreate ==> forall d | d in p.controls :: !Pools.Reusable(p, d, want)
    ensures c != null ==> c in pool.known && Pools.Serves(c.origin, want)
    ensures old(pool.known) <= pool.known && forall x | x in pool.known :: x in old(pool.known) || fresh(x)
  {
    if forceToCreate {
      reused := false;
      c, q := pool.CreateConnection(want, sessionMade, p);
    } else {
      c, reused, q := pool.GetConnection(want, sessionMade, p);
    }
  }

  /** A reused connection of the pool or a new one for holder `h`; only a new one when that is asked for. */
  method Obtain(pool: ConnectionPoolInternal, want: Pools.Origin, forceToCreate: bool, sessionMade: bool,
                ghost w: World, ghost h: nat)
    returns (c: ConnectionInternal?, reused: bool, ghost w': World)
    requires w.pool == pool.State() && InOrder(w, pool.keepAliveIdleCountMax) && Holds(w, h, null)
    modifies pool`controls, pool`known, set d | d in pool.known :: d`idle
    ensures w'.pool == pool.State() && InOrder(w', pool.keepAliveIdleCountMax) && Holds(w', h, c)
    ensures c == null <==> !reused && (!Pools.Supported(want.scheme) || !sessionMade)
    ensures c == null ==> w' == w
    ensures reused ==> !forceToCreate && LeadsTo(w, Runs.Obtain(h, c, want), w', pool.keepAliveIdleCountMax)
    ensures c != null && !reused ==>
              c !in w.pool.conns && LeadsTo(w, Runs.Open(h, c, want), w', pool.keepAliveIdleCountMax)
    ensures !reused && !forceToCreate ==> forall d | d in w.pool.controls :: !Pools.Reusable(w.pool, d, want)
    ensures Runs.StaysOut(w, w')
    ensures c != null ==> c in pool.known && Pools.Serves(c.origin, want)
    ensures c != null ==> c.origin.host == want.host && c.origin.port == want.port
    ensures old(pool.known) <= pool.known && forall x | x in pool.known :: x in old(pool.known) || fresh(x)
  {
    ghost var q;
    c, reused, q := Choose(pool, want, forceToCreate, sessionMade, w.pool);
    w' := w;
    if c != null {
      var held: ConnectionInternal := c;
      ghost var step: Step := if reused then Runs.Obtain(h, held, want) else Runs.Open(h, held, want);
      w' := Took(w, h, c, step, pool.keepAliveIdleCountMax);
    }
  }

  // ---- leaving the pool while held ----

  lemma Unpooled(w: World, c: ConnectionInternal, idleMax: nat) returns (w': World)
    requires InOrder(w, idleMax) && c in w.pool.conns
    ensures LeadsTo(w, Runs.Unpool(c), w', idleMax) && InOrder(w', idleMax) && Runs.StaysOut(w, w')
    ensures w'.pool == Pools.Remove(w.pool, c) && w'.holders == w.holders
  {
    w' := Runs.Apply(w, Runs.Unpool(c), idleMax);
    Runs.StepExclusive(w, Runs.Unpool(c), idleMax);
    Pools.RemoveKeeps(w.pool, c, idleMax);
  }

  /** Takes a connection out of the pool while its holder keeps it. */
  method Unpool(pool: ConnectionPoolInternal, c: ConnectionInternal, ghost w: World) returns (ghost w': World)
    requires w.pool == pool.State() && InOrder(w, pool.keepAliveIdleCountMax) && c in pool.known
    modifies pool`controls
    ensures w'.pool == pool.State() && InOrder(w', pool.keepAliveIdleCountMax)
    ensures LeadsTo(w, Runs.Unpool(c), w', pool.keepAliveIdleCountMax) && Runs.StaysOut(w, w')
    ensures c !in w'.pool.controls && w'.holders == w.holders && w'.pool.conns == w.pool.conns
    ensures forall d | d in w.pool.controls && d != c :: d in w'.pool.controls
  {
    var ok, q := pool.RemoveConnection(c, w.pool);
    w' := Unpooled(w, c, pool.keepAliveIdleCountMax);
  }

  lemma Cancelled(w: World, c: ConnectionInternal, idleMax: nat) returns (w': World)
    requires InOrder(w, idleMax) && c in w.pool.conns
    ensures LeadsTo(w, Runs.CancelConn(c), w', idleMax) && InOrder(w', idleMax)
    ensures w'.pool == Pools.Cancel(w.pool, c) && w'.holders == w.holders && Runs.StaysOut(w, w')
  {
    w' := Runs.Apply(w, Runs.CancelConn(c), idleMax);
    Runs.StepExclusive(w, Runs.CancelConn(c), idleMax);
    Pools.CancelKeeps(w.pool, c, idleMax);
  }

  /** Any steps of anybody, cancelled or not. */
  method AnySteps(pool: ConnectionPoolInternal, ghost w: World) returns (ghost steps: seq<Step>, ghost w': World)
    requires w.pool == pool.State() && InOrder(w, pool.keepAliveIdleCountMax)
    modifies pool, pool.known
    ensures Runs.Reaches(w, steps, pool.keepAliveIdleCountMax, w')
    ensures w'.pool == pool.State() && Pools.Timely(w'.pool)
    ensures old(pool.known) <= pool.known && forall x | x in pool.known :: x in old(pool.known) || fresh(x)
  {
    steps, w' := [], w;
  }

  /** Cancels a connection and, with any steps of others in between, takes it out of the pool. */
  method CancelAndUnpool(pool: ConnectionPoolInternal, c: ConnectionInternal, ghost w: World)
    returns (ok: bool, ghost cancelled: World, ghost steps: seq<Step>, ghost later: World, ghost w': World)
    requires w.pool == pool.State() && InOrder(w, pool.keepAliveIdleCountMax) && c in pool.known
    modifies pool, pool.known
    ensures w'.pool == pool.State() && InOrder(w', pool.keepAliveIdleCountMax) && Runs.StaysOut(w, w')
    ensures LeadsTo(w, Runs.CancelConn(c), cancelled, pool.keepAliveIdleCountMax)
    ensures Runs.Reaches(cancelled, steps, pool.keepAliveIdleCountMax, later)
    ensures LeadsTo(later, Runs.Unpool(c), w', pool.keepAliveIdleCountMax)
    ensures c in w'.pool.conns && c !in w'.pool.controls && w'.pool.conns[c].cancelled
    ensures old(pool.known) <= pool.known && forall x | x in pool.known :: x in old(pool.known) || fresh(x)
  {
    ok := CancelOne(pool, c, w.pool);
    cancelled := Cancelled(w, c, pool.keepAliveIdleCountMax);
    steps, later := OthersMeanwhile(pool, c, cancelled);
    w' := Unpool(pool, c, later);
    Runs.StaysOutThrough(w, cancelled, later);
    Runs.StaysOutThrough(w, later, w');
  }

  method OthersMeanwhile(pool: ConnectionPoolInternal, c: ConnectionInternal, ghost w: World)
    returns (ghost steps: seq<Step>, ghost w': World)
    requires w.pool == pool.State() && InOrder(w, pool.keepAliveIdleCountMax)
    requires c in w.pool.conns && w.pool.conns[c].cancelled
    modifies pool, pool.known
    ensures w'.pool == pool.State() && InOrder(w', pool.keepAliveIdleCountMax) && Runs.StaysOut(w, w')
    ensures Runs.Reaches(w, steps, pool.keepAliveIdleCountMax, w')
    ensures c in w'.pool.conns && w'.pool.conns[c].cancelled
    ensures old(pool.known) <= pool.known && forall x | x in pool.known :: x in old(pool.known) || fresh(x)
  {
    steps, w' := AnySteps(pool, w);
    Runs.NoSharing(w, steps, pool.keepAliveIdleCountMax, w');
    Runs.RunStaysOut(w, steps, pool.keepAliveIdleCountMax, w');
    Runs.StaysCancelled(w, steps, pool.keepAliveIdleCountMax, w', c);
  }

  method CancelOne(pool: ConnectionPoolInternal, c: ConnectionInternal, ghost p: Pools.Pool<ConnectionInternal>)
    returns (ok: bool)
    requires p == pool.State() && c in pool.known
    modifies c`cancelled
    ensures c in p.conns && pool.State() == Pools.Cancel(p, c)
  {
    ok := c.Cancel();
    assert pool.State().conns == p.conns[c := c.Value()];
  }
}
