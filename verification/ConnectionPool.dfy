/**
 The connection pool and its connections as objects. Each method is one step of `ConnectionPoolSpec`: it takes the
 state it starts from as `p` and returns the one it leads to.
 */
module ConnectionPool {
  import opened ConnectionPoolSpec
  import opened Options
  import opened Text

  /** What a connection sees of the engine that uses it: the engine's reference to its connection. */
  class ConnectionStatusListener {
    var connection: ConnectionInternal?

    constructor ()
      ensures connection == null
    {
      connection := null;
    }

    /** The connection becomes idle: an engine that refers to it forgets it. */
    method OnIdle(c: ConnectionInternal) returns (listenerInvalidated: bool)
      modifies this
      ensures listenerInvalidated == (old(connection) == c)
      ensures connection == if old(connection) == c then null else old(connection)
    {
      if connection != null && connection == c {
        connection := null;
        return true;
      }
      listenerInvalidated := false;
    }
  }

  class ConnectionInternal {
    const origin: Origin
    var idle: bool
    var cancelled: bool
    var listener: ConnectionStatusListener?

    function Value(): Conn
      reads this`idle, this`cancelled
    {
      Conn(origin, idle, cancelled)
    }

    constructor (origin: Origin)
      ensures Value() == Conn(origin, false, false) && listener == null
    {
      this.origin, idle, cancelled, listener := origin, false, false, null;
    }

    method SetConnectionStatusListener(l: ConnectionStatusListener?)
      modifies this`listener
      ensures listener == l
    {
      listener := l;
    }

    method SetInuseIfReusable(want: Origin) returns (ok: bool)
      modifies this`idle
      ensures ok <==> && old(idle) && Same(origin.scheme, want.scheme)
                      && origin.host == want.host && origin.port == want.port && origin.proxy == want.proxy
                      && (Same(want.scheme, "https") ==>
                            origin.rootCaDirectory == want.rootCaDirectory && origin.rootCaFile == want.rootCaFile)
                      && origin.timeoutSec == want.timeoutSec
      ensures Value() == if ok then old(Value()).(idle := false) else old(Value())
    {
      if !idle {
        return false;
      }
      if Lower(want.scheme) != Lower(origin.scheme) || want.host != origin.host || want.port != origin.port {
        return false;
      }
      if want.proxy != origin.proxy {
        return false;
      }
      if Lower(origin.scheme) == "https" {
        if want.rootCaDirectory != origin.rootCaDirectory || want.rootCaFile != origin.rootCaFile {
          return false;
        }
      }
      if want.timeoutSec != origin.timeoutSec {
        return false;
      }
      idle := false;
      ok := true;
    }

    /** Only the first cancel shuts the socket down, which may fail. */
    method Cancel() returns (ok: bool)
      modifies this`cancelled
      ensures Value() == old(Value()).(cancelled := true)
      ensures old(cancelled) ==> ok
    {
      if cancelled {
        return true;
      }
      cancelled := true;
      ok := *;
    }

    /** Tells the listener, whatever the status is, and drops a listener that referred to this connection. */
    method OnConnectionReleased() returns (ok: bool)
      modifies this`idle, this`listener, if listener == null then {} else {listener}
      ensures ok == !old(idle) && Value() == old(Value()).(idle := true)
      ensures old(listener) == null ==> listener == null
      ensures old(listener) != null ==>
                && old(listener).connection != this
                && (old(listener.connection) != this ==> old(listener).connection == old(listener.connection))
                && listener == if old(listener.connection) == this then null else old(listener)
    {
      if listener != null {
        var listenerInvalidated := listener.OnIdle(this);
        if listenerInvalidated {
          listener := null;
        }
      }
      if idle {
        return false;
      }
      idle := true;
      ok := true;
    }
  }

  class ConnectionPoolInternal {
    const keepAliveIdleCountMax: nat
    const keepAliveTimeout: nat
    var controls: map<ConnectionInternal, Option<Timer>>
    var timers: nat
    ghost var known: set<ConnectionInternal>

    ghost function State(): Pool<ConnectionInternal>
      reads this, set c | c in known :: c`idle, set c | c in known :: c`cancelled
    {
      Pool(map c | c in known :: c.Value(), controls, timers)
    }

    /** The objects are in state `p`, which is in order. */
    ghost predicate Is(p: Pool<ConnectionInternal>)
      reads this, set c | c in known :: c`idle, set c | c in known :: c`cancelled
    {
      p == State() && PoolInv(p, keepAliveIdleCountMax) && Timely(p)
    }

    constructor (keepAliveIdleCountMax: nat, keepAliveTimeout: nat)
      ensures Is(Pool(map[], map[], 0)) && known == {}
      ensures this.keepAliveIdleCountMax == keepAliveIdleCountMax && this.keepAliveTimeout == keepAliveTimeout
    {
      this.keepAliveIdleCountMax, this.keepAliveTimeout := keepAliveIdleCountMax, keepAliveTimeout;
      controls, timers, known := map[], 0, {};
      new;
      EmptyKeeps<ConnectionInternal>(keepAliveIdleCountMax);
    }

    // ---- getting a connection ----

    /** Hands out an idle connection that serves the request, if the pool has one, and makes it in use. */
    method FindAndReuseConnection(want: Origin, ghost p: Pool<ConnectionInternal>)
      returns (found: ConnectionInternal?, ghost q: Pool<ConnectionInternal>)
      requires Is(p)
      modifies this`controls, set c | c in known :: c`idle
      ensures found == null ==> q == p && forall c | c in p.controls :: !Reusable(p, c, want)
      ensures found != null ==> Reusable(p, found, want) && q == Reuse(p, found)
      ensures found != null ==> found.origin == p.conns[found].origin
      ensures Is(q)
    {
      var rest := controls.Keys;
      while rest != {}
        invariant rest <= p.controls.Keys && p == State()
        invariant forall c | c in p.controls && c !in rest :: !Reusable(p, c, want)
        decreases rest
      {
        var c: ConnectionInternal :| c in rest;
        rest := rest - {c};
        var ok := Try(c, want, p);
        if ok {
          ReuseKeeps(p, c, keepAliveIdleCountMax);
          q := ClearTask(c, p);
          return c, q;
        }
      }
      found, q := null, p;
    }

    /** The connection found has no keep-alive task any more. */
    method ClearTask(c: ConnectionInternal, ghost p: Pool<ConnectionInternal>)
      returns (ghost q: Pool<ConnectionInternal>)
      requires c in p.conns && State() == Reuse(p, c).(controls := p.controls)
      modifies this`controls
      ensures q == Reuse(p, c) && q == State()
    {
      q := Reuse(p, c);
      controls := controls[c := None];
    }

    /** One connection of the scan. */
    method Try(c: ConnectionInternal, want: Origin, ghost p: Pool<ConnectionInternal>) returns (ok: bool)
      requires p == State() && c in p.controls && c in p.conns
      modifies c`idle
      ensures ok <==> Reusable(p, c, want)
      ensures State() == if ok then Reuse(p, c).(controls := p.controls) else p
    {
      ok := c.SetInuseIfReusable(want);
      assert State().conns == p.conns[c := c.Value()];
    }

    /** A connection for the origin, unless its scheme is not supported or no session can be set up. */
    method CreateConnection(origin: Origin, sessionMade: bool, ghost p: Pool<ConnectionInternal>)
      returns (made: ConnectionInternal?, ghost q: Pool<ConnectionInternal>)
      requires Is(p)
      modifies this`controls, this`known
      ensures made == null <==> !Supported(origin.scheme) || !sessionMade
      ensures made == null ==> q == p && known == old(known)
      ensures made != null ==> fresh(made) && known == old(known) + {made} && made !in p.conns
      ensures made != null ==> q == Create(p, made, origin) && made.listener == null && made.origin == origin
      ensures Is(q)
    {
      made, q := null, p;
      if Lower(origin.scheme) != "https" && Lower(origin.scheme) != "http" {
        return;
      }
      if !sessionMade {
        return;
      }
      var c := new ConnectionInternal(origin);
      assert c !in p.conns;
      CreateKeeps(p, c, origin, keepAliveIdleCountMax);
      Enter(c, p);
      made, q := c, Create(p, c, origin);
    }

    method Enter(c: ConnectionInternal, ghost p: Pool<ConnectionInternal>)
      requires p == State() && c !in known
      modifies this`controls, this`known
      ensures known == old(known) + {c}
      ensures State() == p.(conns := p.conns[c := c.Value()], controls := p.controls[c := None])
    {
      known := known + {c};
      controls := controls[c := None];
      assert State().conns == p.conns[c := c.Value()];
    }

    method GetConnection(want: Origin, sessionMade: bool, ghost p: Pool<ConnectionInternal>)
      returns (c: ConnectionInternal?, reused: bool, ghost q: Pool<ConnectionInternal>)
      requires Is(p)
      modifies this`controls, this`known, set c | c in known :: c`idle
      ensures reused ==> c != null && Reusable(p, c, want) && q == Reuse(p, c) && known == old(known)
      ensures !reused ==> forall d | d in p.controls :: !Reusable(p, d, want)
      ensures !reused && c != null ==> fresh(c) && known == old(known) + {c} && c !in p.conns && q == Create(p, c, want)
      ensures reused ==> c.origin == p.conns[c].origin
      ensures !reused && c != null ==> c.origin == want
      ensures c == null <==> !reused && (!Supported(want.scheme) || !sessionMade)
      ensures c == null ==> q == p && known == old(known)
      ensures Is(q)
    {
      c, q := FindAndReuseConnection(want, p);
      reused := c != null;
      if !reused {
        c, q := CreateConnection(want, sessionMade, p);
      }
    }

    // ---- giving a connection up ----

    method RemoveConnection(c: ConnectionInternal, ghost p: Pool<ConnectionInternal>)
      returns (ok: bool, ghost q: Pool<ConnectionInternal>)
      requires Is(p)
      modifies this`controls
      ensures ok == (c in p.controls) && q == Remove(p, c)
      ensures Is(q)
    {
      RemoveKeeps(p, c, keepAliveIdleCountMax);
      ok, q := RemoveConnectionWithoutLock(c, p);
    }

    method RemoveConnectionWithoutLock(c: ConnectionInternal, ghost p: Pool<ConnectionInternal>)
      returns (ok: bool, ghost q: Pool<ConnectionInternal>)
      requires p == State()
      modifies this`controls
      ensures ok == (c in p.controls) && q == Remove(p, c) && q == State()
    {
      q := Remove(p, c);
      if c !in controls {
        assert controls == controls - {c};
        return false, q;
      }
      q := Erase(c, p);
      ok := true;
    }

    method Erase(c: ConnectionInternal, ghost p: Pool<ConnectionInternal>) returns (ghost q: Pool<ConnectionInternal>)
      requires p == State()
      modifies this`controls
      ensures q == Remove(p, c) && q == State()
    {
      q := Remove(p, c);
      controls := controls - {c};
    }

    /** Gives a connection back: it becomes idle and gets a keep-alive task, unless it has been cancelled. */
    method ReleaseConnection(c: ConnectionInternal, now: int, ghost p: Pool<ConnectionInternal>)
      returns (ok: bool, expires: int, victim: Option<ConnectionInternal>, ghost q: Pool<ConnectionInternal>)
      requires Is(p) && now + keepAliveTimeout < TIMEVAL_MAX
      modifies this`controls, this`timers, c`idle, c`listener, if c.listener == null then {} else {c.listener}
      ensures expires == now + keepAliveTimeout
      ensures Parks(p, c) ==> Evicts(Parked(p, c, expires), keepAliveIdleCountMax, victim)
      ensures ok == Parks(p, c) && q == Release(p, c, expires, victim).0
      ensures Is(q)
      ensures c in p.controls && old(c.listener) != null ==> old(c.listener).connection != c
    {
      expires := now + keepAliveTimeout;
      if c !in controls {
        return false, expires, None, p;
      }
      ok, victim, q := ReleasePooled(c, expires, p);
    }

    method ReleasePooled(c: ConnectionInternal, expires: int, ghost p: Pool<ConnectionInternal>)
      returns (ok: bool, victim: Option<ConnectionInternal>, ghost q: Pool<ConnectionInternal>)
      requires Is(p) && c in p.controls && expires < TIMEVAL_MAX
      modifies this`controls, this`timers, c`idle, c`listener, if c.listener == null then {} else {c.listener}
      ensures Parks(p, c) ==> Evicts(Parked(p, c, expires), keepAliveIdleCountMax, victim)
      ensures ok == Parks(p, c) && q == Release(p, c, expires, victim).0 && q == State()
      ensures PoolInv(q, keepAliveIdleCountMax) && Timely(q)
      ensures old(c.listener) != null ==> old(c.listener).connection != c
    {
      ok, q := Park(c, expires, p);
      victim := None;
      if ok {
        victim, q := UpdateParked(c, expires, p);
      }
      ReleaseKeeps(p, c, expires, victim, keepAliveIdleCountMax);
    }

    method UpdateParked(c: ConnectionInternal, ghost expires: int, ghost p: Pool<ConnectionInternal>)
      returns (victim: Option<ConnectionInternal>, ghost q: Pool<ConnectionInternal>)
      requires Tidy(p) && Timely(p) && Parks(p, c) && expires < TIMEVAL_MAX && State() == Parked(p, c, expires)
      modifies this`controls
      ensures Evicts(Parked(p, c, expires), keepAliveIdleCountMax, victim)
      ensures q == Release(p, c, expires, victim).0 && q == State()
    {
      ParkedTidy(p, c, expires);
      victim, q := UpdateConnections(Parked(p, c, expires));
    }

    /** The release before the idle connections are counted. */
    method Park(c: ConnectionInternal, expires: int, ghost p: Pool<ConnectionInternal>)
      returns (parked: bool, ghost q: Pool<ConnectionInternal>)
      requires p == State() && c in p.controls && c in p.conns
      modifies this`controls, this`timers, c`idle, c`listener, if c.listener == null then {} else {c.listener}
      ensures parked == Parks(p, c)
      ensures q == if parked then Parked(p, c, expires) else Release(p, c, expires, None).0
      ensures Timely(p) && expires < TIMEVAL_MAX ==> Timely(q)
      ensures q == State()
      ensures old(c.listener) != null ==> old(c.listener).connection != c
    {
      q := p;
      var released := c.OnConnectionReleased();
      assert State().conns == p.conns[c := c.Value()];
      if !released {
        return false, p;
      }
      if c.cancelled {
        ghost var marked := State();
        var _, removed := RemoveConnectionWithoutLock(c, marked);
        q := removed;
        return false, q;
      }
      controls := controls[c := Some(Timer(timers, expires))];
      timers := timers + 1;
      parked, q := true, Parked(p, c, expires);
    }

    /** Counts the idle connections and gives up the one that expires first when there are too many. */
    method UpdateConnections(ghost p: Pool<ConnectionInternal>)
      returns (victim: Option<ConnectionInternal>, ghost q: Pool<ConnectionInternal>)
      requires p == State() && Tidy(p) && Timely(p)
      modifies this`controls
      ensures Evicts(p, keepAliveIdleCountMax, victim)
      ensures q == (if victim.Some? then Remove(p, victim.value) else p) && q == State()
    {
      IdleHaveTimers(p);
      var idleCount, earliest := CountIdle(Idle(p));
      if idleCount <= keepAliveIdleCountMax {
        return None, p;
      }
      var _, removed := RemoveConnectionWithoutLock(earliest.value, p);
      victim, q := earliest, removed;
    }

    static lemma OneSeen(idle: set<ConnectionInternal>, rest: set<ConnectionInternal>, c: ConnectionInternal)
      requires c in rest
      ensures var seen := idle - rest;
              idle - (rest - {c}) == if c in idle then seen + {c} else seen
      ensures |idle - (rest - {c})| == |idle - rest| + if c in idle then 1 else 0
    {
      assert idle - (rest - {c}) == if c in idle then (idle - rest) + {c} else idle - rest;
    }

    method CountIdle(ghost idle: set<ConnectionInternal>)
      returns (idleCount: nat, earliest: Option<ConnectionInternal>)
      requires HaveTimers(idle)
      ensures idleCount == |idle|
      ensures if idle == {} then earliest == None else earliest.Some? && earliest.value in idle
      ensures earliest.Some? ==>
                forall d | d in idle :: controls[earliest.value].value.expires <= controls[d].value.expires
    {
      earliest, idleCount := None, 0;
      var earliestExpirationTime := TIMEVAL_MAX;
      var rest := controls.Keys;
      assert idle - rest == {};
      while rest != {}
        invariant rest <= controls.Keys && idleCount == |idle - rest|
        invariant Earliest(idle, idle - rest, earliest, earliestExpirationTime)
        decreases rest
      {
        var c: ConnectionInternal :| c in rest;
        OneSeen(idle, rest, c);
        ghost var seen := idle - rest;
        rest := rest - {c};
        if c.idle {
          idleCount := idleCount + 1;
          earliest, earliestExpirationTime := Compare(idle, seen, c, earliest, earliestExpirationTime);
        }
      }
      assert idle - rest == idle;
    }

    /** Of the connections seen so far this one expires first. */
    ghost predicate Earliest(idle: set<ConnectionInternal>, seen: set<ConnectionInternal>,
                             earliest: Option<ConnectionInternal>, time: int)
      requires HaveTimers(idle)
      reads this, controls.Keys
    {
      && seen <= idle
      && (if seen == {} then earliest == None && time == TIMEVAL_MAX else earliest.Some? && earliest.value in seen)
      && (earliest.Some? ==> time == controls[earliest.value].value.expires)
      && (forall c | c in seen :: time <= controls[c].value.expires)
    }

    method Compare(ghost idle: set<ConnectionInternal>, ghost seen: set<ConnectionInternal>, c: ConnectionInternal,
                   earliest: Option<ConnectionInternal>, time: int)
      returns (first: Option<ConnectionInternal>, firstTime: int)
      requires HaveTimers(idle) && Earliest(idle, seen, earliest, time) && c in idle
      ensures Earliest(idle, seen + {c}, first, firstTime)
    {
      first, firstTime := earliest, time;
      var expirationTime := controls[c].value.expires;
      if expirationTime < time {
        first, firstTime := Some(c), expirationTime;
      }
    }

    /** These are the idle pooled connections, and each has a timer task. */
    ghost predicate HaveTimers(idle: set<ConnectionInternal>)
      reads this, controls.Keys
    {
      && (forall c | c in controls :: c in idle <==> c.idle)
      && (forall c | c in idle :: c in controls && controls[c].Some? && controls[c].value.expires < TIMEVAL_MAX)
    }

    lemma IdleHaveTimers(p: Pool<ConnectionInternal>)
      requires p == State() && Tidy(p) && Timely(p)
      ensures HaveTimers(Idle(p))
    {
      forall c | c in controls
        ensures (c in Idle(p) <==> c.idle) && (c.idle ==> controls[c].Some?)
      {
        assert c in p.controls && p.conns[c] == c.Value();
      }
    }

    // ---- the timer ----

    /** A keep-alive task runs; it removes the connection it belongs to, if it is still its task. */
    method OnKeepAliveTimeoutExpired(id: nat, ghost p: Pool<ConnectionInternal>)
      returns (ghost q: Pool<ConnectionInternal>)
      requires Is(p)
      modifies this`controls
      ensures q == Fire(p, id)
      ensures Is(q)
    {
      FireKeeps(p, id, keepAliveIdleCountMax);
      var rest := controls.Keys;
      while rest != {}
        invariant rest <= controls.Keys && controls == p.controls && p == State()
        invariant forall c | c in controls && c !in rest :: !Owns(p, c, id)
        decreases rest
      {
        var c: ConnectionInternal :| c in rest;
        if controls[c].Some? && controls[c].value.id == id {
          OneOwner(p, c, id);
          q := Erase(c, p);
          return;
        }
        rest := rest - {c};
      }
      NoOwner(p, id);
      q := p;
    }

    static lemma OneOwner(p: Pool<ConnectionInternal>, c: ConnectionInternal, id: nat)
      requires Tidy(p) && Owns(p, c, id)
      ensures Fire(p, id) == Remove(p, c)
    {
      assert Fire(p, id).controls == p.controls - {c};
    }

    static lemma NoOwner(p: Pool<ConnectionInternal>, id: nat)
      requires forall c | c in p.controls :: !Owns(p, c, id)
      ensures Fire(p, id) == p
    {
      assert Fire(p, id).controls == p.controls;
    }
  }
}
