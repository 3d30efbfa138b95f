/**
 The connection pool, its keep-alive timers and the requests that hold connections, as a state machine. Every
 public method of the pool is one step under its mutex; a timer task may run at any later moment, also after it has
 been cancelled. `C` stands for the identity of a connection object.
 */
module ConnectionPoolSpec {
  import opened FiniteSets
  import opened Options
  import opened Text

  /** The largest time the timer can represent, in microseconds. */
  const TIMEVAL_MAX: int := 0x7FFF_FFFF_FFFF_FFFF

  /** What has to match for a connection to serve a request. */
  datatype Origin = Origin(scheme: string, host: string, port: nat, proxy: Option<string>,
                           rootCaDirectory: string, rootCaFile: string, timeoutSec: nat)

  datatype Conn = Conn(origin: Origin, idle: bool, cancelled: bool)

  /** One keep-alive task: its identity and when it expires. */
  datatype Timer = Timer(id: nat, expires: int)

  /**
   `conns` are all connections ever created, `controls` those in the pool with their timer task, `timers` the
   number of timer tasks made so far.
   */
  datatype Pool<!C> = Pool(conns: map<C, Conn>, controls: map<C, Option<Timer>>, timers: nat)

  predicate Supported(scheme: string) {
    Lower(scheme) in ["http", "https"]
  }

  lemma SupportedIff(scheme: string)
    ensures Supported(scheme) <==> Same(scheme, "http") || Same(scheme, "https")
  {
    assert Lower("http") == "http" && Lower("https") == "https";
  }

  /** Same scheme up to case, host, port, proxy and timeout; over https also the same root certificates. */
  predicate Serves(have: Origin, want: Origin) {
    && Lower(have.scheme) == Lower(want.scheme) && have.host == want.host && have.port == want.port
    && have.proxy == want.proxy
    && (Lower(have.scheme) == "https" ==>
          have.rootCaDirectory == want.rootCaDirectory && have.rootCaFile == want.rootCaFile)
    && have.timeoutSec == want.timeoutSec
  }

  predicate Reusable<C>(p: Pool<C>, c: C, want: Origin) {
    c in p.controls && c in p.conns && p.conns[c].idle && Serves(p.conns[c].origin, want)
  }

  /** A connection is handed out again only for where it goes already, and any idle pooled one that goes there is. */
  lemma ReusableIff<C>(p: Pool<C>, c: C, want: Origin)
    ensures Reusable(p, c, want) <==>
            && c in p.controls && c in p.conns && p.conns[c].idle
            && var have := p.conns[c].origin;
               && Same(have.scheme, want.scheme) && have.host == want.host && have.port == want.port
               && have.proxy == want.proxy && have.timeoutSec == want.timeoutSec
               && (Same(want.scheme, "https") ==>
                     have.rootCaDirectory == want.rootCaDirectory && have.rootCaFile == want.rootCaFile)
  {
  }

  function Reuse<C>(p: Pool<C>, c: C): Pool<C>
    requires c in p.conns
  {
    p.(conns := p.conns[c := p.conns[c].(idle := false)], controls := p.controls[c := None])
  }

  function Create<C>(p: Pool<C>, c: C, origin: Origin): Pool<C> {
    p.(conns := p.conns[c := Conn(origin, false, false)], controls := p.controls[c := None])
  }

  function Remove<C>(p: Pool<C>, c: C): Pool<C> {
    p.(controls := p.controls - {c})
  }

  function Cancel<C>(p: Pool<C>, c: C): Pool<C>
    requires c in p.conns
  {
    p.(conns := p.conns[c := p.conns[c].(cancelled := true)])
  }

  function Idle<C>(p: Pool<C>): set<C> {
    set c | c in p.controls && c in p.conns && p.conns[c].idle
  }

  /** The idle connection given up on a release that makes too many idle: one that expires no later than the others. */
  predicate Earliest<C>(p: Pool<C>, c: C) {
    && c in Idle(p) && p.controls[c].Some?
    && forall d | d in Idle(p) :: p.controls[d].Some? && p.controls[c].value.expires <= p.controls[d].value.expires
  }

  predicate Evicts<C>(p: Pool<C>, idleMax: nat, victim: Option<C>) {
    if |Idle(p)| <= idleMax then victim.None? else victim.Some? && Earliest(p, victim.value)
  }

  /** The release up to the point where the number of idle connections is looked at. */
  function Parked<C>(p: Pool<C>, c: C, expires: int): Pool<C>
    requires c in p.conns
  {
    p.(conns := p.conns[c := p.conns[c].(idle := true)],
       controls := p.controls[c := Some(Timer(p.timers, expires))],
       timers := p.timers + 1)
  }

  /** A release that gets as far as starting a keep-alive timer. */
  predicate Parks<C>(p: Pool<C>, c: C) {
    c in p.controls && c in p.conns && !p.conns[c].idle && !p.conns[c].cancelled
  }

  function Release<C>(p: Pool<C>, c: C, expires: int, victim: Option<C>): (Pool<C>, bool)
    requires c in p.controls ==> c in p.conns
  {
    if c !in p.controls || p.conns[c].idle then (p, false)
    else if p.conns[c].cancelled then
      (Remove(p.(conns := p.conns[c := p.conns[c].(idle := true)]), c), false)
    else
      var parked := Parked(p, c, expires);
      (if victim.Some? then Remove(parked, victim.value) else parked, true)
  }

  predicate Owns<C>(p: Pool<C>, c: C, id: nat) {
    c in p.controls && p.controls[c].Some? && p.controls[c].value.id == id
  }

  /** The timer task runs: the connection whose current task it is leaves the pool, if there is one. */
  function Fire<C>(p: Pool<C>, id: nat): Pool<C> {
    p.(controls := map c | c in p.controls && !Owns(p, c, id) :: p.controls[c])
  }

  // ---- what every step keeps ----

  /**
   A pooled connection is idle exactly when it has a timer task, no two share a task, and no more than the
   configured number are idle.
   */
  ghost predicate Tidy<C>(p: Pool<C>) {
    && (forall c | c in p.controls :: c in p.conns)
    && (forall c | c in p.controls :: p.conns[c].idle <==> p.controls[c].Some?)
    && (forall c | c in p.controls :: p.controls[c].Some? ==> p.controls[c].value.id < p.timers)
    && (forall c, d | c in p.controls && d in p.controls && c != d ::
          p.controls[c].Some? && p.controls[d].Some? ==> p.controls[c].value.id != p.controls[d].value.id)
  }

  /** No task expires later than the timer can tell. */
  ghost predicate Timely<C>(p: Pool<C>) {
    forall c | c in p.controls :: p.controls[c].Some? ==> p.controls[c].value.expires < TIMEVAL_MAX
  }

  ghost predicate PoolInv<C>(p: Pool<C>, idleMax: nat) {
    Tidy(p) && |Idle(p)| <= idleMax
  }

  lemma EmptyKeeps<C>(idleMax: nat)
    ensures PoolInv<C>(Pool(map[], map[], 0), idleMax) && Timely<C>(Pool(map[], map[], 0))
  {
    assert Idle<C>(Pool(map[], map[], 0)) == {};
  }

  lemma ReuseKeeps<C>(p: Pool<C>, c: C, idleMax: nat)
    requires PoolInv(p, idleMax) && c in p.controls
    ensures PoolInv(Reuse(p, c), idleMax) && (Timely(p) ==> Timely(Reuse(p, c)))
  {
    assert Idle(Reuse(p, c)) == Idle(p) - {c};
    Fewer(Idle(Reuse(p, c)), Idle(p));
  }

  lemma CreateKeeps<C>(p: Pool<C>, c: C, origin: Origin, idleMax: nat)
    requires PoolInv(p, idleMax) && c !in p.conns
    ensures var made := Create(p, c, origin).conns[c];
            made.origin == origin && !made.idle && !made.cancelled
    ensures PoolInv(Create(p, c, origin), idleMax) && (Timely(p) ==> Timely(Create(p, c, origin)))
  {
    assert Idle(Create(p, c, origin)) == Idle(p);
  }

  lemma RemoveKeeps<C>(p: Pool<C>, c: C, idleMax: nat)
    requires PoolInv(p, idleMax)
    ensures PoolInv(Remove(p, c), idleMax) && (Timely(p) ==> Timely(Remove(p, c)))
  {
    assert Idle(Remove(p, c)) == Idle(p) - {c};
    Fewer(Idle(Remove(p, c)), Idle(p));
  }

  lemma CancelKeeps<C>(p: Pool<C>, c: C, idleMax: nat)
    requires PoolInv(p, idleMax) && c in p.conns
    ensures PoolInv(Cancel(p, c), idleMax) && (Timely(p) ==> Timely(Cancel(p, c)))
  {
    assert Idle(Cancel(p, c)) == Idle(p);
  }

  lemma FireKeeps<C>(p: Pool<C>, id: nat, idleMax: nat)
    requires PoolInv(p, idleMax)
    ensures PoolInv(Fire(p, id), idleMax) && (Timely(p) ==> Timely(Fire(p, id)))
  {
    Fewer(Idle(Fire(p, id)), Idle(p));
  }

  lemma ParkedTidy<C>(p: Pool<C>, c: C, expires: int)
    requires Tidy(p) && Parks(p, c)
    ensures Tidy(Parked(p, c, expires))
    ensures Idle(Parked(p, c, expires)) == Idle(p) + {c} && |Idle(Parked(p, c, expires))| == |Idle(p)| + 1
  {
    assert c !in Idle(p);
  }

  lemma RemoveTidy<C>(p: Pool<C>, c: C)
    requires Tidy(p)
    ensures Tidy(Remove(p, c)) && Idle(Remove(p, c)) == Idle(p) - {c}
  {
  }

  /**
   A release keeps the pool in order: the idle count goes up by one at most and is brought back at once, by giving up
   a connection that expires no later than any idle one that is kept.
   */
  lemma ReleaseKeeps<C>(p: Pool<C>, c: C, expires: int, victim: Option<C>, idleMax: nat)
    requires PoolInv(p, idleMax)
    requires Parks(p, c) ==> Evicts(Parked(p, c, expires), idleMax, victim)
    ensures PoolInv(Release(p, c, expires, victim).0, idleMax)
    ensures Timely(p) && expires < TIMEVAL_MAX ==> Timely(Release(p, c, expires, victim).0)
    ensures Release(p, c, expires, victim).1 <==> Parks(p, c)
  {
    if Parks(p, c) {
      var parked := Parked(p, c, expires);
      ParkedTidy(p, c, expires);
      if victim.Some? {
        RemoveTidy(parked, victim.value);
      }
    } else if c in p.controls && !p.conns[c].idle {
      var marked := p.(conns := p.conns[c := p.conns[c].(idle := true)]);
      assert Remove(marked, c).controls == p.controls - {c};
      assert Idle(Remove(marked, c)) == Idle(p);
    }
  }

  /** The connection given up expires no later than any idle one kept. */
  lemma VictimExpiresFirst<C>(p: Pool<C>, c: C, expires: int, victim: C, idleMax: nat)
    requires PoolInv(p, idleMax) && Parks(p, c)
    requires Evicts(Parked(p, c, expires), idleMax, Some(victim))
    ensures var q := Release(p, c, expires, Some(victim)).0;
            && Parked(p, c, expires).controls[victim].Some?
            && (forall d | d in Idle(q) :: q.controls[d].Some? &&
                  Parked(p, c, expires).controls[victim].value.expires <= q.controls[d].value.expires)
            && |Idle(q)| == idleMax
  {
    var parked := Parked(p, c, expires);
    ParkedTidy(p, c, expires);
    RemoveTidy(parked, victim);
  }
}
