/**
 Response body streams as objects. A stream owns a connection until it is closed or exchanged for a caching stream;
 every change it makes to the pool is one step of `ConnectionRuns`.
 */
module BodyStreams {
  import opened Options
  import opened BodyStreamSpec
  import opened ConnectionPool
  import Pools = ConnectionPoolSpec
  import opened HeldConnections
  import Runs = ConnectionRuns

  const RESPONSE_BODY_SKIP_BYTES: nat := 8192

  /** The network stream that a body is read from; it stays the same object when streams are exchanged. */
  class ContentStream {
    var rest: Bytes
    var eof: bool
    var bad: bool

    function State(): Content
      reads this
    {
      Content(rest, eof, bad)
    }

    constructor (body: Bytes)
      ensures State() == Content(body, false, false)
    {
      rest, eof, bad := body, false, false;
    }

    method Read(n: nat, works: bool) returns (got: Option<Bytes>)
      requires !eof
      modifies this
      ensures got.None? <==> old(bad) || !works
      ensures got == None ==> State() == old(State()).(bad := true)
      ensures got.Some? ==> got.value == Taken(old(rest), n) && State() == Drained(old(State()), n)
    {
      if bad || !works {
        bad := true;
        return None;
      }
      var length := if n <= |rest| then n else |rest|;
      got := Some(rest[..length]);
      eof := |rest| < n;
      rest := rest[length..];
      assert got.value == Taken(old(rest), n);
    }
  }

  /**
   What closing meets when it reads what is left: whether the timeout of the connection can be read, whether each read
   is still in time and its timeout can be set, how it goes, and whether the timeout can be put back.
   */
  datatype Skipping = Skipping(known: bool, inTime: nat -> bool, sets: nat -> bool, tries: nat -> Try, putsBack: bool)

  /** Nothing is in the way of reading on to the end. */
  ghost predicate Smooth(m: Skipping) {
    m.known && m.putsBack && forall i: nat :: m.inTime(i) && m.sets(i)
  }

  /** The read that skips more of the body. */
  function Skip(m: Skipping, i: nat): Try {
    m.tries(i).(buffer := true, n := RESPONSE_BODY_SKIP_BYTES)
  }

  /** The part common to both streams; `caching` is set in those that also write the body to a temporary file. */
  class ResponseBodyStreamInternal {
    const content: ContentStream
    const caching: bool
    var closed: bool
    var tempFile: Option<Bytes>
    var writtenDataSize: nat
    ghost var received: Bytes

    ghost function State(): Stream
      reads this, content
    {
      Stream(content.State(), closed, caching, tempFile, writtenDataSize, received)
    }

    ghost predicate Valid()
      reads this
    {
      if tempFile.None? then writtenDataSize == 0 else |tempFile.value| <= writtenDataSize
    }

    constructor (content: ContentStream, caching: bool)
      ensures this.content == content && this.caching == caching
      ensures State() == Stream(content.State(), false, caching, None, 0, [])
    {
      this.content, this.caching := content, caching;
      closed, tempFile, writtenDataSize, received := false, None, 0, [];
    }

    /** The read of the base class. */
    method Receive(buffer: bool, n: nat, works: bool) returns (reply: Reply)
      modifies content
      ensures var t := Try(buffer, n, works, false, 0);
              reply == Read(old(State()), t).1 && content.State() == Read(old(State()), t).0.content
    {
      if closed {
        return Fail(IllegalState);
      }
      if !buffer || n > SSIZE_MAX {
        return Fail(IllegalArgument);
      }
      if content.eof {
        return End;
      }
      var got := content.Read(n, works);
      reply := if got.Some? then Got(got.value) else Fail(Execution);
    }

    method CreateTempFile(made: bool) returns (ok: bool)
      modifies this`tempFile, this`writtenDataSize
      ensures ok <==> old(tempFile).Some? || made
      ensures !ok || old(tempFile).Some? ==> tempFile == old(tempFile) && writtenDataSize == old(writtenDataSize)
      ensures ok && old(tempFile).None? ==> tempFile == Some([]) && writtenDataSize == 0
    {
      if tempFile.Some? {
        return true;
      }
      if !made {
        return false;
      }
      tempFile, writtenDataSize := Some([]), 0;
      ok := true;
    }

    /** Writes to the temporary file; what does not get there is not missed. */
    method WriteTempFile(bytes: Bytes, takes: nat)
      requires tempFile.Some? && Valid()
      modifies this`tempFile, this`writtenDataSize
      ensures Valid()
      ensures tempFile == Some(old(tempFile).value + Stored(old(State()), bytes, takes))
      ensures writtenDataSize == old(writtenDataSize) + |bytes|
    {
      var length := if takes <= |bytes| then takes else |bytes|;
      if |tempFile.value| == writtenDataSize {
        assert Taken(bytes, takes) == bytes[..length];
        tempFile := Some(tempFile.value + bytes[..length]);
      } else {
        assert tempFile.value + [] == tempFile.value;
      }
      writtenDataSize := writtenDataSize + |bytes|;
    }

    method ReadBytes(t: Try) returns (reply: Reply)
      requires Valid()
      modifies content, this`tempFile, this`writtenDataSize, this`received
      ensures (State(), reply) == Read(old(State()), t)
      ensures Valid()
    {
      reply := Receive(t.buffer, t.n, t.works);
      if reply.Got? {
        received := received + reply.bytes;
        if caching {
          var ok := CreateTempFile(t.made);
          if ok {
            WriteTempFile(reply.bytes, t.takes);
          }
        }
      }
    }

    /**
     Reads what is left, for 100 ms at most; true when the end was reached and the connection is as it was before. There
     is trouble when the time is up, or a timeout of the connection cannot be read, set or put back.
     */
    method SkipAll(m: Skipping) returns (ok: bool, ghost trouble: bool, ghost tries: seq<Try>)
      requires Valid()
      modifies content, this`tempFile, this`writtenDataSize, this`received
      ensures State() == Run(old(State()), tries) && forall i | 0 <= i < |tries| :: tries[i] == Skip(m, i)
      ensures Valid()
      ensures ok <==> !closed && content.eof && !trouble
      ensures old(closed || content.eof) || Smooth(m) ==> !trouble
      ensures old(!closed && !content.bad) && Smooth(m) && (forall i: nat :: m.tries(i).works) ==> ok
      ensures old(closed || content.eof) ==> tries == []
    {
      trouble, tries := false, [];
      if closed {
        return false, false, [];
      }
      if content.eof {
        return true, false, [];
      }
      if !m.known {
        return false, true, [];
      }
      ok := true;
      var i := 0;
      while !content.eof
        invariant !closed && Valid() && ok && !trouble && i == |tries|
        invariant State() == Run(old(State()), tries) && forall j | 0 <= j < |tries| :: tries[j] == Skip(m, j)
        invariant (forall j: nat :: m.tries(j).works) && !old(content.bad) ==> !content.bad
        decreases |content.rest|, !content.eof
      {
        if !m.inTime(i) {
          ok, trouble := false, true;
          break;
        }
        if !m.sets(i) {
          ok, trouble := false, true;
          break;
        }
        var reply := ReadBytes(Skip(m, i));
        RunSnoc(old(State()), tries, Skip(m, i));
        tries := tries + [Skip(m, i)];
        if reply.Fail? {
          ok := false;
          break;
        }
        i := i + 1;
      }
      if !m.putsBack {
        ok, trouble := false, true;
      }
    }

    method Close()
      modifies this`closed
      ensures closed
    {
      closed := true;
    }
  }

  /** Reads what is left and gives the connection back, as reusable if the end was reached in time. */
  method SkipAndGiveBack(base: ResponseBodyStreamInternal, pool: ConnectionPoolInternal, c: ConnectionInternal,
                         now: int, m: Skipping, ghost w: World, ghost h: nat)
    returns (ghost step: Step, ghost trouble: bool, ghost tries: seq<Try>, ghost w': World)
    requires base.Valid() && !base.closed
    requires w.pool == pool.State() && InOrder(w, pool.keepAliveIdleCountMax)
    requires Holds(w, h, c) && now + pool.keepAliveTimeout < Pools.TIMEVAL_MAX
    modifies base`tempFile, base`writtenDataSize, base`received, base.content
    modifies pool`controls, pool`timers, c`idle, c`listener, if c.listener == null then {} else {c.listener}
    ensures base.Valid() && base.State() == Run(old(base.State()), tries)
    ensures GivesBack(w, h, step, w', pool.keepAliveIdleCountMax) && (step.reusable <==> base.content.eof && !trouble)
    ensures (old(base.content.eof) ==> step.reusable) && (Smooth(m) ==> !trouble)
    ensures step.reusable ==> step.expires == now + pool.keepAliveTimeout
    ensures w'.pool == pool.State() && InOrder(w', pool.keepAliveIdleCountMax) && Holds(w', h, null)
    ensures Forgotten(c, old(c.listener), w')
  {
    var reusable;
    reusable, trouble, tries := base.SkipAll(m);
    step, w' := GiveBackBeside(base, base.State(), pool, c, reusable, now, w, h);
  }

  /** Giving back a connection leaves the stream as it is. */
  method GiveBackBeside(base: ResponseBodyStreamInternal, ghost s: Stream, pool: ConnectionPoolInternal,
                        c: ConnectionInternal, reusable: bool, now: int, ghost w: World, ghost h: nat)
    returns (ghost step: Step, ghost w': World)
    requires base.Valid() && s == base.State()
    requires w.pool == pool.State() && InOrder(w, pool.keepAliveIdleCountMax)
    requires Holds(w, h, c) && now + pool.keepAliveTimeout < Pools.TIMEVAL_MAX
    modifies pool`controls, pool`timers, c`idle, c`listener, if c.listener == null then {} else {c.listener}
    ensures base.Valid() && s == base.State()
    ensures GivesBack(w, h, step, w', pool.keepAliveIdleCountMax) && step.reusable == reusable
    ensures reusable ==> step.expires == now + pool.keepAliveTimeout
    ensures w'.pool == pool.State() && InOrder(w', pool.keepAliveIdleCountMax) && Holds(w', h, null)
    ensures Forgotten(c, old(c.listener), w')
  {
    step, w' := GiveBack(pool, c, reusable, now, w, h);
  }

  /** The objects that giving back a connection may change. */
  function Reached(c: ConnectionInternal?): set<object>
    reads c
  {
    if c == null then {} else if c.listener == null then {c} else {c, c.listener}
  }

  /** The engine that was listening no longer refers to the connection, unless that has left the pool for good. */
  ghost predicate Forgotten(c: ConnectionInternal, listener: ConnectionStatusListener?, w: World)
    reads listener
  {
    listener != null && listener.connection == c ==> c in w.pool.conns && c !in w.pool.controls
  }

  class ResponseBodyStreamWithoutCaching {
    const base: ResponseBodyStreamInternal
    const pool: ConnectionPoolInternal
    var connection: ConnectionInternal?

    ghost predicate Valid()
      reads this, base
    {
      base.Valid() && !base.caching && (!base.closed ==> connection != null)
    }

    constructor (content: ContentStream, connection: ConnectionInternal, pool: ConnectionPoolInternal)
      ensures this.connection == connection && this.pool == pool && fresh(base) && base.content == content
      ensures Valid() && !base.closed
    {
      this.connection, this.pool := connection, pool;
      base := new ResponseBodyStreamInternal(content, false);
    }

    /** Gives the connection back, unless this was done before or the stream has been exchanged. */
    method Close(now: int, m: Skipping, ghost w: World, ghost h: nat)
      returns (ghost taken: Option<Step>, ghost trouble: bool, ghost tries: seq<Try>, ghost w': World)
      requires Valid() && w.pool == pool.State() && InOrder(w, pool.keepAliveIdleCountMax)
      requires Holds(w, h, connection) && now + pool.keepAliveTimeout < Pools.TIMEVAL_MAX
      modifies this, base, base.content, pool`controls, pool`timers, Reached(connection)
      ensures Valid() && base.closed && w'.pool == pool.State() && InOrder(w', pool.keepAliveIdleCountMax)
      ensures taken.Some? <==> old(!base.closed)
      ensures taken == None ==> w' == w && base.content.State() == old(base.content.State())
      ensures taken.Some? ==> GivesBack(w, h, taken.value, w', pool.keepAliveIdleCountMax)
      ensures taken.Some? ==> connection == null && Holds(w', h, null)
      ensures taken.Some? ==> base.content.State() == Run(old(base.State()), tries).content
      ensures taken.Some? ==> (taken.value.reusable <==> base.content.eof && !trouble)
      ensures (old(!base.closed && base.content.eof) ==> taken.value.reusable) && (Smooth(m) ==> !trouble)
      ensures taken.Some? && taken.value.reusable ==> taken.value.expires == now + pool.keepAliveTimeout
      ensures taken.Some? && old(connection) != null ==> Forgotten(old(connection), old(connection.listener), w')
    {
      taken, trouble, tries, w' := None, false, [], w;
      if base.closed {
        return;
      }
      ghost var step;
      step, trouble, tries, w' := CloseOpen(connection, now, m, w, h);
      taken := Some(step);
    }

    /** Closing a stream that is still open. */
    method CloseOpen(c: ConnectionInternal, now: int, m: Skipping, ghost w: World, ghost h: nat)
      returns (ghost step: Step, ghost trouble: bool, ghost tries: seq<Try>, ghost w': World)
      requires Valid() && !base.closed && connection == c
      requires w.pool == pool.State() && InOrder(w, pool.keepAliveIdleCountMax)
      requires Holds(w, h, c) && now + pool.keepAliveTimeout < Pools.TIMEVAL_MAX
      modifies this, base, base.content, pool`controls, pool`timers, Reached(c)
      ensures Valid() && base.closed && connection == null
      ensures w'.pool == pool.State() && InOrder(w', pool.keepAliveIdleCountMax)
      ensures GivesBack(w, h, step, w', pool.keepAliveIdleCountMax)
      ensures step.reusable <==> base.content.eof && !trouble
      ensures (old(base.content.eof) ==> step.reusable) && (Smooth(m) ==> !trouble)
      ensures step.reusable ==> step.expires == now + pool.keepAliveTimeout
      ensures Holds(w', h, null) && Forgotten(c, old(c.listener), w')
      ensures base.content.State() == Run(old(base.State()), tries).content
    {
      step, trouble, tries, w' := SkipAndGiveBack(base, pool, c, now, m, w, h);
      Finish(base.content.State(), w'.pool);
    }

    method Finish(ghost s: Content, ghost p: Pools.Pool<ConnectionInternal>)
      requires p == pool.State() && s == base.content.State() && base.Valid() && !base.caching
      modifies this`connection, base`closed
      ensures Valid() && base.closed && connection == null && p == pool.State() && s == base.content.State()
    {
      connection := null;
      base.Close();
    }

    /**
     Moves the connection to a caching stream over the same network stream and closes this one. A stream that is closed
     already has none to give, and the new one is not fit to be closed.
     */
    method ExchangeToResponseBodyStreamWithCaching(length: Option<int>, keyMade: bool, ghost w: World, ghost h: nat,
                                                   ghost to: nat)
      returns (stream: ResponseBodyStreamWithCaching, ghost w': World)
      requires Valid() && InOrder(w, pool.keepAliveIdleCountMax)
      requires Holds(w, h, connection) && to !in w.holders
      modifies this`connection, base`closed
      ensures Valid() && base.closed && connection == null
      ensures fresh(stream) && fresh(stream.base) && stream.connection == old(connection)
      ensures stream.Valid() <==> old(connection) != null
      ensures stream.pool == pool && stream.base.content == base.content && stream.contentLength == length
      ensures stream.base.State() == Stream(base.content.State(), false, true, None, 0, [])
      ensures InOrder(w', pool.keepAliveIdleCountMax) && Holds(w', h, null) && Holds(w', to, stream.connection)
      ensures if old(connection) == null then w' == w
              else LeadsTo(w, Runs.HandOver(h, to), w', pool.keepAliveIdleCountMax)
    {
      stream := new ResponseBodyStreamWithCaching(base.content, connection, pool, length, keyMade);
      if connection == null {
        w' := w;
      } else {
        w' := HandedOver(w, h, to, pool.keepAliveIdleCountMax);
      }
      connection := null;
      base.Close();
    }
  }

  /** What the cache is given on close: the temporary file, if there is one, and the size recorded for it. */
  datatype Offer = Offer(file: Option<Bytes>, size: nat)

  class ResponseBodyStreamWithCaching {
    const base: ResponseBodyStreamInternal
    const pool: ConnectionPoolInternal
    const contentLength: Option<int>
    const keyMade: bool
    var connection: ConnectionInternal?

    ghost predicate Valid()
      reads this, base
    {
      base.Valid() && base.caching && (!base.closed ==> connection != null)
    }

    constructor (content: ContentStream, connection: ConnectionInternal?, pool: ConnectionPoolInternal,
                 contentLength: Option<int>, keyMade: bool)
      ensures this.connection == connection && this.pool == pool && this.contentLength == contentLength
      ensures fresh(base) && base.content == content && (Valid() <==> connection != null)
      ensures base.State() == Stream(content.State(), false, true, None, 0, [])
    {
      this.connection, this.pool, this.contentLength, this.keyMade := connection, pool, contentLength, keyMade;
      base := new ResponseBodyStreamInternal(content, true);
    }

    method IsValidResponseBody() returns (valid: bool)
      ensures valid == Offers(base.State(), contentLength)
    {
      if contentLength.None? {
        if base.content.eof {
          return true;
        } else {
          return false;
        }
      }
      if contentLength.value == -1 {
        if base.content.eof {
          return true;
        } else {
          return false;
        }
      }
      if contentLength.value != base.writtenDataSize {
        return false;
      }
      valid := true;
    }

    /** Throws when the file is there and cannot be removed. */
    method RemoveTempFile(removes: bool) returns (threw: bool)
      modifies base`tempFile
      ensures threw <==> old(base.tempFile) != None && !removes
      ensures base.tempFile == if threw then old(base.tempFile) else None
    {
      if base.tempFile.None? {
        return false;
      }
      if !removes {
        return true;
      }
      base.tempFile := None;
      threw := false;
    }

    /** Offers the body to the cache, which takes the temporary file or refuses it. */
    method PutCache(accepts: bool, removes: bool) returns (offered: Option<Offer>, threw: bool)
      modifies base`tempFile
      ensures offered == if keyMade then Some(Offer(old(base.tempFile), base.writtenDataSize)) else None
      ensures threw <==> old(base.tempFile) != None && !(keyMade && accepts) && !removes
      ensures base.tempFile == if threw then old(base.tempFile) else None
    {
      if !keyMade {
        threw := RemoveTempFile(removes);
        return None, threw;
      }
      offered := Some(Offer(base.tempFile, base.writtenDataSize));
      threw := false;
      if accepts {
        base.tempFile := None;
      } else {
        threw := RemoveTempFile(removes);
      }
    }

    /**
     Reads what is left, gives the connection back, and offers the body to the cache if all of it seems to have come;
     the temporary file does not stay behind. A second close does nothing.
     */
    method Close(now: int, m: Skipping, accepts: bool, removes: bool, ghost w: World, ghost h: nat)
      returns (offered: Option<Offer>, threw: bool, ghost taken: Option<Step>, ghost trouble: bool,
               ghost tries: seq<Try>, ghost w': World)
      requires Valid() && w.pool == pool.State() && InOrder(w, pool.keepAliveIdleCountMax)
      requires Holds(w, h, connection) && now + pool.keepAliveTimeout < Pools.TIMEVAL_MAX
      modifies this, base, base.content, pool`controls, pool`timers, Reached(connection)
      ensures base.closed && w'.pool == pool.State() && InOrder(w', pool.keepAliveIdleCountMax)
      ensures taken.Some? <==> old(!base.closed)
      ensures taken == None ==> w' == w && offered == None && base.State() == old(base.State())
      ensures taken.Some? ==> GivesBack(w, h, taken.value, w', pool.keepAliveIdleCountMax)
      ensures taken.Some? ==> connection == null && Holds(w', h, null)
      ensures taken.Some? ==> (taken.value.reusable <==> base.content.eof && !trouble)
      ensures (old(!base.closed && base.content.eof) ==> taken.value.reusable) && (Smooth(m) ==> !trouble)
      ensures taken.Some? && taken.value.reusable ==> taken.value.expires == now + pool.keepAliveTimeout
      ensures taken.Some? ==>
                var s := Run(old(base.State()), tries);
                offered == if Offers(s, contentLength) && keyMade then Some(Offer(s.file, s.written)) else None
      ensures taken.Some? && !threw ==> base.tempFile == None
      ensures threw ==> !removes && !(offered.Some? && accepts)
      ensures taken.Some? && old(connection) != null ==> Forgotten(old(connection), old(connection.listener), w')
    {
      offered, threw, taken, trouble, tries, w' := None, false, None, false, [], w;
      if base.closed {
        return;
      }
      ghost var step;
      offered, threw, step, trouble, tries, w' := CloseOpen(connection, now, m, accepts, removes, w, h);
      taken := Some(step);
    }

    /** Closing a stream that is still open. */
    method CloseOpen(c: ConnectionInternal, now: int, m: Skipping, accepts: bool, removes: bool,
                     ghost w: World, ghost h: nat)
      returns (offered: Option<Offer>, threw: bool, ghost step: Step, ghost trouble: bool, ghost tries: seq<Try>,
               ghost w': World)
      requires Valid() && !base.closed && connection == c
      requires w.pool == pool.State() && InOrder(w, pool.keepAliveIdleCountMax)
      requires Holds(w, h, c) && now + pool.keepAliveTimeout < Pools.TIMEVAL_MAX
      modifies this, base, base.content, pool`controls, pool`timers, Reached(c)
      ensures base.closed && connection == null
      ensures w'.pool == pool.State() && InOrder(w', pool.keepAliveIdleCountMax)
      ensures GivesBack(w, h, step, w', pool.keepAliveIdleCountMax)
      ensures step.reusable <==> base.content.eof && !trouble
      ensures (old(base.content.eof) ==> step.reusable) && (Smooth(m) ==> !trouble)
      ensures step.reusable ==> step.expires == now + pool.keepAliveTimeout
      ensures Holds(w', h, null) && Forgotten(c, old(c.listener), w')
      ensures var s := Run(old(base.State()), tries);
              offered == if Offers(s, contentLength) && keyMade then Some(Offer(s.file, s.written)) else None
      ensures !threw ==> base.tempFile == None
      ensures threw ==> !removes && !(offered.Some? && accepts)
    {
      step, trouble, tries, w' := SkipAndGiveBack(base, pool, c, now, m, w, h);
      offered, threw := Finish(accepts, removes, base.State(), w'.pool);
    }

    /** Closing after the connection has been given back. */
    method Finish(accepts: bool, removes: bool, ghost s: Stream, ghost p: Pools.Pool<ConnectionInternal>)
      returns (offered: Option<Offer>, threw: bool)
      requires p == pool.State() && s == base.State()
      modifies this`connection, base`closed, base`tempFile
      ensures base.closed && connection == null && p == pool.State()
      ensures base.content.eof == s.content.eof
      ensures offered == if Offers(s, contentLength) && keyMade then Some(Offer(s.file, s.written)) else None
      ensures !threw ==> base.tempFile == None
      ensures threw ==> !removes && !(offered.Some? && accepts)
    {
      connection := null;
      var responseBodyValid := IsValidResponseBody();
      base.Close();
      if responseBodyValid {
        offered, threw := PutCache(accepts, removes);
      } else {
        threw := RemoveTempFile(removes);
        offered := None;
      }
    }
  }
}
