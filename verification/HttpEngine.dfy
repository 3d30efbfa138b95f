/**
 One engine run: the request is sent over a pooled connection and, when a reused connection turns out to be dead,
 once more over a new one. Other requests, timers and a cancel by another thread go on in between.
 */
module Engine {
  import opened BodyStreams
  import opened BodyStreamSpec
  import opened ConnectionPool
  import opened HeldConnections
  import opened Options
  import Pools = ConnectionPoolSpec
  import Runs = ConnectionRuns

  /** A response, or an exception: of the kind that a retry is considered for, or of another. */
  datatype Reply = Responds | Fails(execution: bool) | RetryRefused

  /**
   What one attempt meets: whether the url can be parsed, a session be set up, the request be sent and the response be
   received, whether what fails then is a time-out or the encryption, whether the server keeps the connection open,
   whether the request body can be reset, and the response body.
   */
  datatype Met = Met(urlValid: bool, sessionMade: bool, sent: bool, received: bool, timeoutOrSsl: bool, keepAlive: bool,
                     resets: bool, body: Bytes)

  /**
   One attempt as it went: `offered` is whether the pool had a connection for it when it was asked, `keepAlive` whether
   the server will keep the connection open. `resets` is asked of the request body only before a second attempt.
   */
  datatype Attempt = Attempt(forced: bool, offered: bool, connection: Option<ConnectionInternal>, reused: bool,
                             reply: Reply, keepAlive: bool, cancelled: bool, resets: bool)

  /** The one case that a second attempt is made in. */
  predicate CallsForRetry(a: Attempt) {
    a.reply == Fails(true) && a.connection.Some? && !a.cancelled && a.reused && a.resets
  }

  predicate Refused(a: Attempt) {
    a.reply == Fails(true) && a.connection.Some? && !a.cancelled && a.reused && !a.resets
  }

  /** The connection of an attempt that failed, or that the server will close, is out of the pool. */
  ghost predicate Out(a: Attempt, w: World) {
    (a.reply.Fails? || !a.keepAlive) && a.connection.Some? ==>
      a.connection.value in w.pool.conns && a.connection.value !in w.pool.controls
  }

  /**
   At most two attempts: a second one exactly when a reused connection failed in the first, and on a connection that is
   new. What failed, and what the server will close, is out of the pool.
   */
  ghost predicate Attempted(trace: seq<Attempt>, w: World, w': World) {
    && 1 <= |trace| <= 2 && !trace[0].forced
    && (|trace| == 2 <==> CallsForRetry(trace[0]))
    && (|trace| == 2 ==> trace[1].forced && !trace[1].reused && New(trace[1], w))
    && Out(trace[0], w') && Out(trace[|trace| - 1], w')
  }

  /** A pooled idle connection goes where this request goes. */
  ghost predicate HasFor(p: Pools.Pool<ConnectionInternal>, want: Pools.Origin) {
    exists d :: d in p.controls && Pools.Reusable(p, d, want)
  }

  /** An attempt takes a pooled connection if it may and there is one, and any it takes goes where the request goes. */
  ghost predicate Suits(a: Attempt, want: Pools.Origin) {
    a.connection.Some? ==>
      && (a.reused <==> !a.forced && a.offered)
      && var have := a.connection.value.origin;
         Pools.Serves(have, want) && have.host == want.host && have.port == want.port
  }

  /** The reply is what an attempt that meets this makes it, unless it was cancelled. */
  ghost predicate Says(reply: Reply, connected: bool, reused: bool, met: Met, want: Pools.Origin, cancelled: bool) {
    && (reply.Responds? ==> connected && met.sent && met.received)
    && (!cancelled ==>
          && (connected <==> met.urlValid && (reused || (Pools.Supported(want.scheme) && met.sessionMade)))
          && (reply.Responds? <==> connected && met.sent && met.received)
          && (reply.Fails? && connected ==> reply.execution == !met.timeoutOrSsl))
  }

  /** The reply to a request that goes over a connection. */
  ghost predicate Hears(reply: Reply, met: Met, cancelled: bool) {
    && (reply.Responds? || reply.Fails?)
    && (reply.Responds? ==> met.sent && met.received)
    && (!cancelled ==> reply == if met.sent && met.received then Responds else Fails(!met.timeoutOrSsl))
  }

  lemma HearsSays(reply: Reply, reused: bool, met: Met, want: Pools.Origin, cancelled: bool)
    requires Hears(reply, met, cancelled)
    requires met.urlValid && (reused || (Pools.Supported(want.scheme) && met.sessionMade))
    ensures Says(reply, true, reused, met, want, cancelled)
  {
  }

  /** The attempt went as what it met makes it go. */
  ghost predicate Meets(a: Attempt, met: Met, want: Pools.Origin, hasRequestBody: bool) {
    && Says(a.reply, a.connection.Some?, a.reused, met, want, a.cancelled)
    && (a.reply.Responds? ==> a.keepAlive == met.keepAlive)
    && (CallsForRetry(a) || Refused(a) ==> a.resets == (!hasRequestBody || met.resets))
  }

  /** An attempt that failed may be cancelled while its connection is given up. */
  lemma FailedMeets(a: Attempt, met: Met, want: Pools.Origin, hasRequestBody: bool, was: bool)
    requires Says(a.reply, a.connection.Some?, a.reused, met, want, was) && (was ==> a.cancelled)
    requires a.reply.Fails?
    requires CallsForRetry(a) || Refused(a) ==> a.resets == (!hasRequestBody || met.resets)
    ensures Meets(a, met, want, hasRequestBody)
  {
  }

  /** The connection of the attempt, if it got one, was not known before. */
  ghost predicate New(a: Attempt, w: World) {
    a.connection.Some? ==> a.connection.value !in w.pool.conns
  }

  lemma AttemptedOnceOrTwice(trace: seq<Attempt>, w: World, w': World)
    requires 1 <= |trace| <= 2 && !trace[0].forced && Out(trace[0], w')
    requires |trace| == 1 ==> !CallsForRetry(trace[0])
    requires |trace| == 2 ==> CallsForRetry(trace[0]) && trace[1].forced && !trace[1].reused
    requires |trace| == 2 ==> New(trace[1], w) && Out(trace[1], w')
    ensures Attempted(trace, w, w')
  {
  }

  /** Every attempt takes the connection it may and goes as what it met makes it go. */
  ghost predicate AllMeet(trace: seq<Attempt>, mets: nat -> Met, want: Pools.Origin, hasRequestBody: bool) {
    && (|trace| > 0 ==> Suits(trace[0], want) && Meets(trace[0], mets(0), want, hasRequestBody))
    && (|trace| > 1 ==> Suits(trace[1], want) && Meets(trace[1], mets(1), want, hasRequestBody))
  }

  /** Of a call that began in `w` these attempts have been made, and another one is called for. */
  ghost predicate Retrying(trace: seq<Attempt>, mets: nat -> Met, want: Pools.Origin, hasRequestBody: bool, w': World) {
    && |trace| <= 1 && AllMeet(trace, mets, want, hasRequestBody)
    && (trace != [] ==> !trace[0].forced && CallsForRetry(trace[0]) && Out(trace[0], w'))
  }

  /** One more attempt is the last one, or calls for another. */
  lemma OneMore(trace: seq<Attempt>, a: Attempt, mets: nat -> Met, want: Pools.Origin, hasRequestBody: bool, w: World,
                before: World, after: World)
    returns (all: seq<Attempt>)
    requires Retrying(trace, mets, want, hasRequestBody, before) && Runs.StaysOut(before, after)
    requires a.forced == (trace != []) && (a.forced ==> !a.reused && New(a, w))
    requires Suits(a, want) && Meets(a, mets(|trace|), want, hasRequestBody) && Out(a, after)
    ensures all == trace + [a] && all[|all| - 1] == a && |all| == |trace| + 1
    ensures AllMeet(all, mets, want, hasRequestBody)
    ensures !CallsForRetry(a) ==> Attempted(all, w, after)
    ensures CallsForRetry(a) ==> trace == [] && Retrying(all, mets, want, hasRequestBody, after)
  {
    all := trace + [a];
    if trace != [] {
      StillOut(trace[0], before, after);
    }
    if !CallsForRetry(a) {
      AttemptedOnceOrTwice(all, w, after);
    }
  }

  lemma StillNew(a: Attempt, w: World, w': World)
    requires Runs.StaysOut(w, w') && !a.reused
    ensures New(a, w') ==> New(a, w)
  {
  }

  lemma StillOut(a: Attempt, w: World, w': World)
    requires Runs.StaysOut(w, w')
    ensures Out(a, w) ==> Out(a, w')
  {
  }

  class HttpEngine {
    const pool: ConnectionPoolInternal
    const origin: Pools.Origin
    const hasRequestBody: bool
    const status: ConnectionStatusListener
    var cancelled: bool
    var connectionRetried: bool

    constructor (pool: ConnectionPoolInternal, origin: Pools.Origin, hasRequestBody: bool)
      ensures this.pool == pool && this.origin == origin && !connectionRetried
      ensures fresh(status) && status.connection == null
    {
      this.pool, this.origin, this.hasRequestBody := pool, origin, hasRequestBody;
      cancelled, connectionRetried := false, false;
      status := new ConnectionStatusListener();
    }

    /**
     Whatever other threads do meanwhile: steps of other holders and of timers, and perhaps a cancel of this engine. The
     listener of a held connection is its holder's.
     */
    method OthersRun(ghost w: World, ghost h: nat) returns (ghost w': World)
      requires w.pool == pool.State() && InOrder(w, pool.keepAliveIdleCountMax)
      modifies this`cancelled, pool, pool.known
      ensures w'.pool == pool.State() && InOrder(w', pool.keepAliveIdleCountMax)
      ensures Runs.StaysOut(w, w') && Runs.SameHeld(w, w', h)
      ensures old(pool.known) <= pool.known && forall x | x in pool.known :: x in old(pool.known) || fresh(x)
      ensures h in w.holders ==> w.holders[h].listener == old(w.holders[h].listener)
      ensures old(cancelled) ==> cancelled
    {
      var calledOff: bool := *;
      cancelled := cancelled || calledOff;
      ghost var steps: seq<Step>;
      steps, w' := StepsOfOthers(w, h);
      Runs.OthersKeep(w, steps, pool.keepAliveIdleCountMax, w', h);
    }

    /** Any steps in which holder `h` has no part. */
    method StepsOfOthers(ghost w: World, ghost h: nat) returns (ghost steps: seq<Step>, ghost w': World)
      requires w.pool == pool.State() && InOrder(w, pool.keepAliveIdleCountMax)
      modifies pool, pool.known
      ensures Runs.Reaches(w, steps, pool.keepAliveIdleCountMax, w') && Runs.NoneBy(steps, h)
      ensures w'.pool == pool.State() && Pools.Timely(w'.pool)
      ensures old(pool.known) <= pool.known && forall x | x in pool.known :: x in old(pool.known) || fresh(x)
      ensures h in w.holders ==> w.holders[h].listener == old(w.holders[h].listener)
    {
      steps, w' := [], w;
    }

    // ---- the reference to the connection ----

    /** Changes the listener of a connection, which the pool does not see. */
    method Listen(c: ConnectionInternal, l: ConnectionStatusListener?, ghost p: Pools.Pool<ConnectionInternal>)
      requires p == pool.State()
      modifies c`listener
      ensures c.listener == l && p == pool.State()
    {
      c.SetConnectionStatusListener(l);
    }

    method Refer(c: ConnectionInternal?, ghost p: Pools.Pool<ConnectionInternal>)
      requires p == pool.State()
      modifies status`connection
      ensures status.connection == c && p == pool.State()
    {
      status.connection := c;
    }

    // ---- one attempt ----

    /** Gets a connection of the pool, or a new one, and listens to it. */
    method Connect(forceToCreate: bool, sessionMade: bool, ghost w: World, ghost h: nat)
      returns (c: ConnectionInternal?, connectionReused: bool, ghost offered: bool, ghost w': World)
      requires w.pool == pool.State() && InOrder(w, pool.keepAliveIdleCountMax) && Holds(w, h, null)
      modifies this`cancelled, pool, pool.known
      ensures w'.pool == pool.State() && InOrder(w', pool.keepAliveIdleCountMax) && Holds(w', h, c)
      ensures Runs.StaysOut(w, w')
      ensures old(pool.known) <= pool.known && forall x | x in pool.known :: x in old(pool.known) || fresh(x)
      ensures c != null <==> connectionReused || (Pools.Supported(origin.scheme) && sessionMade)
      ensures c != null ==> (connectionReused <==> !forceToCreate && offered) && Pools.Serves(c.origin, origin)
      ensures c != null && !connectionReused ==> c !in w.pool.conns
      ensures c != null ==> c in pool.known && c.listener == status
    {
      c, connectionReused, offered, w' := GetConnection(forceToCreate, sessionMade, w, h);
      if c != null {
        Listen(c, status, w'.pool);
      }
    }

    method GetConnection(forceToCreate: bool, sessionMade: bool, ghost w: World, ghost h: nat)
      returns (c: ConnectionInternal?, connectionReused: bool, ghost offered: bool, ghost w': World)
      requires w.pool == pool.State() && InOrder(w, pool.keepAliveIdleCountMax) && Holds(w, h, null)
      modifies this`cancelled, pool, pool.known
      ensures w'.pool == pool.State() && InOrder(w', pool.keepAliveIdleCountMax) && Holds(w', h, c)
      ensures Runs.StaysOut(w, w')
      ensures old(pool.known) <= pool.known && forall x | x in pool.known :: x in old(pool.known) || fresh(x)
      ensures c != null <==> connectionReused || (Pools.Supported(origin.scheme) && sessionMade)
      ensures c != null ==> (connectionReused <==> !forceToCreate && offered) && Pools.Serves(c.origin, origin)
      ensures c != null && !connectionReused ==> c !in w.pool.conns
      ensures c != null ==> c in pool.known
    {
      ghost var w1 := OthersRun(w, h);
      offered := HasFor(w1.pool, origin);
      c, connectionReused, w' := Take(forceToCreate, sessionMade, w1, h);
      Runs.StaysOutThrough(w, w1, w');
    }

    method Take(forceToCreate: bool, sessionMade: bool, ghost w: World, ghost h: nat)
      returns (c: ConnectionInternal?, connectionReused: bool, ghost w': World)
      requires w.pool == pool.State() && InOrder(w, pool.keepAliveIdleCountMax) && Holds(w, h, null)
      modifies pool, pool.known
      ensures w'.pool == pool.State() && InOrder(w', pool.keepAliveIdleCountMax) && Holds(w', h, c)
      ensures Runs.StaysOut(w, w')
      ensures old(pool.known) <= pool.known && forall x | x in pool.known :: x in old(pool.known) || fresh(x)
      ensures c != null <==> connectionReused || (Pools.Supported(origin.scheme) && sessionMade)
      ensures c != null ==>
                (connectionReused <==> !forceToCreate && HasFor(w.pool, origin)) && Pools.Serves(c.origin, origin)
      ensures c != null && !connectionReused ==> c !in w.pool.conns
      ensures c != null ==> c in pool.known
    {
      c, connectionReused, w' := Obtain(pool, origin, forceToCreate, sessionMade, w, h);
    }

    /** Sends the request and receives the response. A connection the server will close leaves the pool at once. */
    method Converse(c: ConnectionInternal, met: Met, ghost w: World, ghost h: nat)
      returns (reply: Reply, ghost answered: World, ghost w': World)
      requires w.pool == pool.State() && InOrder(w, pool.keepAliveIdleCountMax)
      requires Holds(w, h, c) && c in pool.known
      modifies this`cancelled, pool, pool.known
      ensures w'.pool == pool.State() && InOrder(w', pool.keepAliveIdleCountMax) && Holds(w', h, c)
      ensures Runs.StaysOut(w, w') && c.listener == old(c.listener)
      ensures old(pool.known) <= pool.known && forall x | x in pool.known :: x in old(pool.known) || fresh(x)
      ensures Hears(reply, met, cancelled)
      ensures if reply.Responds? && !met.keepAlive then
                LeadsTo(answered, Runs.Unpool(c), w', pool.keepAliveIdleCountMax)
              else w' == answered
      ensures reply.Responds? && !met.keepAlive ==> c in w'.pool.conns && c !in w'.pool.controls
    {
      w' := OthersRun(w, h);
      answered := w';
      if !met.sent {
        return Fails(!met.timeoutOrSsl), w', w';
      }
      if cancelled {
        return Fails(true), w', w';
      }
      if !met.received {
        return Fails(!met.timeoutOrSsl), w', w';
      }
      reply := Responds;
      if !met.keepAlive {
        w' := Unpool(pool, c, answered);
        Runs.StaysOutThrough(w, answered, w');
      }
    }

    /**
     One attempt. Afterwards this engine refers to the connection it got, if any, and listens to it; a response comes
     with a body stream that owns the connection.
     */
    method SendRequestAndReceiveResponse(forceToCreate: bool, met: Met, ghost w: World, ghost h: nat)
      returns (reply: Reply, connectionReused: bool, stream: ResponseBodyStreamWithoutCaching?,
               ghost offered: bool, ghost w': World)
      requires w.pool == pool.State() && InOrder(w, pool.keepAliveIdleCountMax)
      requires status.connection == null && Holds(w, h, null)
      modifies status, this`cancelled, pool, pool.known
      ensures w'.pool == pool.State() && InOrder(w', pool.keepAliveIdleCountMax) && Holds(w', h, status.connection)
      ensures Runs.StaysOut(w, w')
      ensures old(pool.known) <= pool.known && forall x | x in pool.known :: x in old(pool.known) || fresh(x)
      ensures reply.Responds? || reply.Fails?
      ensures connectionReused ==> status.connection != null
      ensures status.connection != null ==>
                (connectionReused <==> !forceToCreate && offered) && Pools.Serves(status.connection.origin, origin)
      ensures reply.Responds? && !met.keepAlive ==>
                status.connection in w'.pool.conns && status.connection !in w'.pool.controls
      ensures status.connection != null && !connectionReused ==> status.connection !in w.pool.conns
      ensures status.connection != null ==> status.connection in pool.known && status.connection.listener == status
      ensures Says(reply, status.connection != null, connectionReused, met, origin, cancelled)
      ensures stream != null <==> reply.Responds?
      ensures stream != null ==> fresh(stream) && Owns(stream, status.connection, met.body)
      ensures old(cancelled) ==> reply == Fails(true) && status.connection == null
    {
      stream, connectionReused, offered := null, false, false;
      if cancelled {
        return Fails(true), false, null, false, w;
      }
      if !met.urlValid {
        return Fails(true), false, null, false, w;
      }
      var c;
      reply, c, connectionReused, stream, offered, w' := GoOver(forceToCreate, met, w, h);
    }

    /** The attempt of an engine that has not been cancelled, for a url that is valid. */
    method GoOver(forceToCreate: bool, met: Met, ghost w: World, ghost h: nat)
      returns (reply: Reply, c: ConnectionInternal?, connectionReused: bool,
               stream: ResponseBodyStreamWithoutCaching?, ghost offered: bool, ghost w': World)
      requires w.pool == pool.State() && InOrder(w, pool.keepAliveIdleCountMax)
      requires status.connection == null && Holds(w, h, null) && met.urlValid
      modifies status, this`cancelled, pool, pool.known
      ensures status.connection == c && (c != null ==> c in pool.known && c.listener == status)
      ensures w'.pool == pool.State() && InOrder(w', pool.keepAliveIdleCountMax) && Holds(w', h, c)
      ensures Runs.StaysOut(w, w')
      ensures old(pool.known) <= pool.known && forall x | x in pool.known :: x in old(pool.known) || fresh(x)
      ensures reply.Responds? || reply.Fails?
      ensures connectionReused ==> c != null
      ensures c != null ==>
                (connectionReused <==> !forceToCreate && offered) && Pools.Serves(c.origin, origin)
      ensures reply.Responds? && !met.keepAlive ==>
                c in w'.pool.conns && c !in w'.pool.controls
      ensures c != null && !connectionReused ==> c !in w.pool.conns
      ensures Says(reply, c != null, connectionReused, met, origin, cancelled)
      ensures stream != null <==> reply.Responds?
      ensures stream != null ==> fresh(stream) && Owns(stream, c, met.body)
    {
      ghost var connected;
      c, connectionReused, offered, connected := Connect(forceToCreate, met.sessionMade, w, h);
      if c == null {
        return Fails(Pools.Supported(origin.scheme)), null, false, null, offered, connected;
      }
      reply, stream, w' := Exchange(c, met, connected, h);
      HearsSays(reply, connectionReused, met, origin, cancelled);
      Runs.StaysOutThrough(w, connected, w');
    }

    /** The connection becomes this engine's, and the request goes over it. */
    method Exchange(c: ConnectionInternal, met: Met, ghost w: World, ghost h: nat)
      returns (reply: Reply, stream: ResponseBodyStreamWithoutCaching?, ghost w': World)
      requires w.pool == pool.State() && InOrder(w, pool.keepAliveIdleCountMax)
      requires Holds(w, h, c) && c in pool.known
      modifies status, this`cancelled, pool, pool.known
      ensures w'.pool == pool.State() && InOrder(w', pool.keepAliveIdleCountMax) && Holds(w', h, c)
      ensures Runs.StaysOut(w, w')
      ensures old(pool.known) <= pool.known && forall x | x in pool.known :: x in old(pool.known) || fresh(x)
      ensures reply.Responds? && !met.keepAlive ==> c in w'.pool.conns && c !in w'.pool.controls
      ensures Hears(reply, met, cancelled)
      ensures status.connection == c && c.listener == old(c.listener)
      ensures stream != null <==> reply.Responds?
      ensures stream != null ==> fresh(stream) && Owns(stream, c, met.body)
    {
      Refer(c, w.pool);
      ghost var answered;
      reply, answered, w' := Converse(c, met, w, h);
      stream := null;
      if reply.Responds? {
        stream := ResponseBody(c, met.body);
      }
    }

    /** The stream is open, owns this connection of the pool, and will read this body. */
    ghost predicate Owns(stream: ResponseBodyStreamWithoutCaching, c: ConnectionInternal?, body: Bytes)
      reads stream, stream.base, stream.base.content
    {
      && stream.Valid() && !stream.base.closed && stream.connection == c && stream.pool == pool
      && stream.base.content.State() == Content(body, false, false)
    }

    method ResponseBody(c: ConnectionInternal, body: Bytes) returns (stream: ResponseBodyStreamWithoutCaching)
      ensures fresh(stream) && Owns(stream, c, body)
    {
      var content := new ContentStream(body);
      stream := new ResponseBodyStreamWithoutCaching(content, c, pool);
    }

    // ---- with a retry ----

    /** Removes a connection that failed from the pool. */
    method GiveUp(c: ConnectionInternal, ghost w: World, ghost h: nat) returns (ghost w': World)
      requires w.pool == pool.State() && InOrder(w, pool.keepAliveIdleCountMax) && Holds(w, h, c) && c in pool.known
      modifies this`cancelled, pool, pool.known
      ensures w'.pool == pool.State() && InOrder(w', pool.keepAliveIdleCountMax) && Holds(w', h, null)
      ensures Runs.StaysOut(w, w') && c in w'.pool.conns && c !in w'.pool.controls
      ensures old(cancelled) ==> cancelled
      ensures old(pool.known) <= pool.known && forall x | x in pool.known :: x in old(pool.known) || fresh(x)
    {
      ghost var step;
      ghost var given;
      step, given := Discard(c, w, h);
      w' := OthersRun(given, h);
      Runs.StaysOutThrough(w, given, w');
    }

    method Discard(c: ConnectionInternal, ghost w: World, ghost h: nat) returns (ghost step: Step, ghost w': World)
      requires w.pool == pool.State() && InOrder(w, pool.keepAliveIdleCountMax) && Holds(w, h, c)
      modifies pool`controls
      ensures GivesBack(w, h, step, w', pool.keepAliveIdleCountMax) && !step.reusable
      ensures w'.pool == pool.State() && InOrder(w', pool.keepAliveIdleCountMax) && Holds(w', h, null)
      ensures Runs.StaysOut(w, w') && c in w'.pool.conns && c !in w'.pool.controls
    {
      var ok, q := pool.RemoveConnection(c, w.pool);
      w' := GaveBack(w, h, c, false, 0, None, pool.keepAliveIdleCountMax);
      step := Runs.GiveBack(h, false, 0, None);
    }

    /** One attempt; when it fails its connection is removed from the pool, and then whether to retry is settled. */
    method TryOnce(force: bool, met: Met, ghost w: World, ghost h: nat)
      returns (reply: Reply, retry: bool, stream: ResponseBodyStreamWithoutCaching?, ghost a: Attempt, ghost w': World)
      requires w.pool == pool.State() && InOrder(w, pool.keepAliveIdleCountMax)
      requires status.connection == null && Holds(w, h, null)
      modifies status, this`cancelled, pool, pool.known
      ensures w'.pool == pool.State() && InOrder(w', pool.keepAliveIdleCountMax) && Holds(w', h, status.connection)
      ensures Runs.StaysOut(w, w')
      ensures old(pool.known) <= pool.known && forall x | x in pool.known :: x in old(pool.known) || fresh(x)
      ensures a.forced == force && (force ==> !a.reused)
      ensures a.connection.Some? && !a.reused ==> a.connection.value !in w.pool.conns
      ensures Suits(a, origin) && Meets(a, met, origin, hasRequestBody) && Out(a, w')
      ensures a.reply.Fails? ==> status.connection == null && stream == null
      ensures a.reply.Responds? ==> status.connection != null && a.connection == Some(status.connection)
      ensures a.reply.Responds? ==> stream != null && fresh(stream) && Owns(stream, status.connection, met.body)
      ensures a.reply.Responds? ==> status.connection.listener == status
      ensures reply == (if Refused(a) then RetryRefused else a.reply) && !a.reply.RetryRefused?
      ensures retry <==> CallsForRetry(a)
    {
      var reused;
      ghost var offered;
      reply, reused, stream, offered, w' := SendRequestAndReceiveResponse(force, met, w, h);
      retry := false;
      var c := status.connection;
      if reply.Responds? {
        a := Attempt(force, offered, Some(c), reused, reply, met.keepAlive, cancelled, true);
        return;
      }
      ghost var sent := w';
      ghost var was := cancelled;
      reply, retry, a, w' := Failed(c, reply, reused, met.resets, force, offered, sent, h);
      FailedMeets(a, met, origin, hasRequestBody, was);
      Runs.StaysOutThrough(w, sent, w');
    }

    /** An attempt that failed: its connection, if it got one, is forgotten and removed. */
    method Failed(c: ConnectionInternal?, failure: Reply, reused: bool, bodyResets: bool, ghost force: bool,
                  ghost offered: bool, ghost w: World, ghost h: nat)
      returns (reply: Reply, retry: bool, ghost a: Attempt, ghost w': World)
      requires w.pool == pool.State() && InOrder(w, pool.keepAliveIdleCountMax) && failure.Fails?
      requires Holds(w, h, c) && (c != null ==> c in pool.known)
      modifies status, this`cancelled, pool, pool.known
      ensures w'.pool == pool.State() && InOrder(w', pool.keepAliveIdleCountMax) && Holds(w', h, null)
      ensures Runs.StaysOut(w, w') && status.connection == null
      ensures old(pool.known) <= pool.known && forall x | x in pool.known :: x in old(pool.known) || fresh(x)
      ensures a.forced == force && a.offered == offered && a.reused == reused && a.reply == failure && Out(a, w')
      ensures a.connection == (if c == null then None else Some(c)) && a.cancelled == cancelled
      ensures CallsForRetry(a) || Refused(a) ==> a.resets == (!hasRequestBody || bodyResets)
      ensures old(cancelled) ==> cancelled
      ensures reply == if Refused(a) then RetryRefused else failure
      ensures retry <==> CallsForRetry(a)
    {
      reply, retry, w' := failure, false, w;
      Refer(null, w.pool);
      if c == null {
        a := Attempt(force, offered, None, reused, failure, true, cancelled, true);
        return;
      }
      w' := GiveUp(c, w, h);
      var resets;
      retry, resets := Decide(failure, reused, bodyResets);
      a := Attempt(force, offered, Some(c), reused, failure, true, cancelled, resets);
      if failure.execution && !cancelled && reused && !resets {
        reply := RetryRefused;
      }
      if retry {
        Listen(c, null, w'.pool);
      }
    }

    /** Whether a failure calls for a retry; the request body is reset only for that. */
    method Decide(reply: Reply, reused: bool, bodyResets: bool) returns (retry: bool, resets: bool)
      requires reply.Fails?
      ensures retry <==> reply.execution && !cancelled && reused && resets
      ensures reply.execution && !cancelled && reused ==> resets == (!hasRequestBody || bodyResets)
    {
      resets := true;
      if reply.execution && !cancelled && reused && hasRequestBody {
        resets := bodyResets;
      }
      retry := reply.execution && !cancelled && reused && resets;
    }

    /** One attempt of the loop; a forced one is on a connection that was new to the call. */
    method TryAgain(force: bool, met: Met, ghost start: World, ghost w: World, ghost h: nat)
      returns (reply: Reply, retry: bool, stream: ResponseBodyStreamWithoutCaching?, ghost a: Attempt, ghost w': World)
      requires w.pool == pool.State() && InOrder(w, pool.keepAliveIdleCountMax)
      requires status.connection == null && Holds(w, h, null) && Runs.StaysOut(start, w)
      modifies status, this`cancelled, pool, pool.known
      ensures w'.pool == pool.State() && InOrder(w', pool.keepAliveIdleCountMax) && Holds(w', h, status.connection)
      ensures Runs.StaysOut(start, w') && Runs.StaysOut(w, w')
      ensures old(pool.known) <= pool.known && forall x | x in pool.known :: x in old(pool.known) || fresh(x)
      ensures a.forced == force && (force ==> !a.reused && New(a, start))
      ensures Suits(a, origin) && Meets(a, met, origin, hasRequestBody) && Out(a, w')
      ensures a.reply.Fails? ==> status.connection == null && stream == null
      ensures a.reply.Responds? ==> status.connection != null && a.connection == Some(status.connection)
      ensures a.reply.Responds? ==> stream != null && Owns(stream, status.connection, met.body)
      ensures a.reply.Responds? ==> status.connection.listener == status
      ensures reply == (if Refused(a) then RetryRefused else a.reply) && !a.reply.RetryRefused?
      ensures retry <==> CallsForRetry(a)
    {
      reply, retry, stream, a, w' := TryOnce(force, met, w, h);
      Runs.StaysOutThrough(start, w, w');
      if force {
        StillNew(a, start, w);
      }
    }

    /**
     At most two attempts: a second one is made exactly when a reused connection failed in the first, on a connection
     that is new. Connections that failed are out of the pool, and only the one that answered is still held.
     */
    method SendRequestAndReceiveResponseWithRetryByConnection(mets: nat -> Met, ghost w: World, ghost h: nat)
      returns (reply: Reply, stream: ResponseBodyStreamWithoutCaching?, ghost trace: seq<Attempt>, ghost w': World)
      requires w.pool == pool.State() && InOrder(w, pool.keepAliveIdleCountMax)
      requires status.connection == null && Holds(w, h, null) && !connectionRetried
      modifies this`cancelled, this`connectionRetried, status, pool, pool.known
      ensures w'.pool == pool.State() && InOrder(w', pool.keepAliveIdleCountMax) && Holds(w', h, status.connection)
      ensures Attempted(trace, w, w')
      ensures AllMeet(trace, mets, origin, hasRequestBody)
      ensures connectionRetried <==> |trace| == 2
      ensures var last := trace[|trace| - 1];
              && reply == (if Refused(last) then RetryRefused else last.reply)
              && (reply.Responds? ==> last.connection == Some(status.connection))
              && (!reply.Responds? ==> status.connection == null)
      ensures reply.Responds? ==> stream != null && Owns(stream, status.connection, mets(|trace| - 1).body)
      ensures reply.Responds? ==> status.connection != null && status.connection.listener == status
    {
      var force := false;
      trace, w' := [], w;
      while true
        invariant w'.pool == pool.State() && InOrder(w', pool.keepAliveIdleCountMax)
        invariant status.connection == null && Holds(w', h, null) && connectionRetried == force
        invariant pool.known >= old(pool.known) && forall x | x in pool.known :: x in old(pool.known) || fresh(x)
        invariant Runs.StaysOut(w, w') && Retrying(trace, mets, origin, hasRequestBody, w')
        invariant force <==> trace != []
        decreases !force
      {
        var retry;
        ghost var a;
        ghost var next;
        reply, retry, stream, a, next := TryAgain(force, mets(if force then 1 else 0), w, w', h);
        trace := OneMore(trace, a, mets, origin, hasRequestBody, w, w', next);
        w' := next;
        if !retry {
          return;
        }
        force := true;
        Retried(w'.pool);
      }
    }

    method Retried(ghost p: Pools.Pool<ConnectionInternal>)
      requires p == pool.State()
      modifies this`connectionRetried
      ensures connectionRetried && p == pool.State()
    {
      connectionRetried := true;
    }

    // ---- cancelling ----

    /**
     Cancels the engine, once; the connection it refers to, if any, is cancelled and leaves the pool. It may be idle or
     another holder's by then, and any steps of others may come in between.
     */
    method Cancel(ghost w: World) returns (ok: bool, ghost w': World)
      requires w.pool == pool.State() && InOrder(w, pool.keepAliveIdleCountMax)
      requires status.connection != null ==> status.connection in pool.known
      modifies this`cancelled, status`connection, pool, pool.known
      ensures cancelled && w'.pool == pool.State() && InOrder(w', pool.keepAliveIdleCountMax) && Runs.StaysOut(w, w')
      ensures old(cancelled || status.connection == null) ==> ok && w' == w
      ensures !old(cancelled) && old(status.connection) != null ==>
                && old(status.connection) !in w'.pool.controls && old(status.connection) in w'.pool.conns
                && w'.pool.conns[old(status.connection)].cancelled
    {
      ok, w' := true, w;
      if cancelled {
        return;
      }
      cancelled := true;
      var c := status.connection;
      if c != null {
        ReferenceChanges(w.pool);
        ghost var cut, steps, later;
        ok, cut, steps, later, w' := CancelAndUnpool(pool, c, w);
      }
    }

    /** The thread that runs the engine may by now refer to another connection, or to none. */
    method ReferenceChanges(ghost p: Pools.Pool<ConnectionInternal>)
      requires p == pool.State()
      modifies status`connection
      ensures p == pool.State()
    {
    }
  }
}
