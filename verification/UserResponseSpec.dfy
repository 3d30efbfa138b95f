/**
 How an engine answers one request: from the cache alone, from the cache after asking the server, or from the network,
 with or without storing what comes; and what becomes of the condition headers along a chain of redirects.
 */
module UserResponseSpec {
  import opened Options
  import opened Text
  import opened HeaderMergeSpec
  import opened RedirectSpec
  import Decisions = CacheDecisionSpec

  const GATEWAY_TIMEOUT := 504
  const NOT_MODIFIED := 304

  /** A stored response as far as the engine looks at it. */
  datatype Cached = Cached(code: int, location: Location, headers: Fields, facts: Decisions.Stored)

  /** The directives of a response about storing it; a `maxAge` of -1 stands for none. */
  datatype StoreControl = StoreControl(maxAge: int, isPublic: bool, isPrivate: bool, noStore: bool)

  /** What comes from the network, as far as the engine looks at it. */
  datatype Arrived = Arrived(code: int, location: Location, headers: Fields, sent: int, received: int,
                             lastModified: Decisions.Stamp, hasExpires: bool, control: Option<StoreControl>,
                             contentLength: Option<int>, chunked: bool)

  /** The directives of a request. */
  datatype Wishes = Wishes(control: Option<Decisions.CacheControl>, noStore: bool)

  /** What one run of an engine meets: the stored response, the time, what arrives, and whether a stored body opens. */
  datatype Met = Met(stored: Option<Cached>, now: int, arrived: Option<Arrived>, opens: bool)

  predicate AvailableToCache(q: Request, wishes: Wishes) {
    && q.verb == Get
    && !Has(q.headers, "Authorization")
    && !(wishes.control.Some? && wishes.control.value.noCache)
    && !Has(q.headers, "If-Modified-Since")
    && !Has(q.headers, "If-None-Match")
  }

  function Facts(stored: Option<Cached>): Option<Decisions.Stored> {
    if stored.Some? then Some(stored.value.facts) else None
  }

  /** What is to be sent and which stored response is kept. */
  function Plan(hasCache: bool, q: Request, wishes: Wishes, e: Met): Decisions.Decision {
    if !hasCache || !AvailableToCache(q, wishes) then Decisions.Decision(Decisions.Send(None), None)
    else Decisions.Decide(Decisions.Directives(wishes.control), Facts(e.stored), e.now)
  }

  /** The request as it goes out, with the condition of the decision. */
  function Sent(q: Request, network: Decisions.Network): Request {
    if network.Send? && network.condition.Some? then
      q.(headers := Insert(q.headers, Field(network.condition.value.0, network.condition.value.1)))
    else q
  }

  /** The stored response is kept when the server says so, or answers with something older. */
  predicate StillValid(stored: Cached, a: Arrived) {
    || a.code == NOT_MODIFIED
    || (stored.facts.lastModified.Date? && a.lastModified.Date?
        && a.lastModified.epoch < stored.facts.lastModified.epoch)
  }

  predicate StorableCode(a: Arrived) {
    || a.code in [200, 203, 204, 300, 301, 404, 405, 410, 414, 501]
    || (a.code in [302, 307, 308]
        && (a.hasExpires
            || (a.control.Some?
                && (a.control.value.maxAge != -1 || a.control.value.isPublic || a.control.value.isPrivate))))
  }

  predicate Cacheable(q: Request, wishes: Wishes, a: Arrived) {
    && q.verb == Get && StorableCode(a)
    && !wishes.noStore && !Has(q.headers, "Authorization")
    && !(a.control.Some? && a.control.value.noStore)
    && ((a.contentLength.Some? && a.contentLength.value != -1) || a.chunked)
  }

  /** A successful change of what the url stands for. */
  predicate Invalidates(q: Request, a: Arrived) {
    200 <= a.code < 300 && q.verb in [Post, Patch, Put, Delete]
  }

  datatype Route = GatewayTimeout | FromCache | Unanswered | Revalidated | Caching | PassedOn

  function RouteOf(hasCache: bool, q: Request, wishes: Wishes, e: Met): Route {
    var plan := Plan(hasCache, q, wishes, e);
    if plan.network.NoRequest? then if plan.cached.None? then GatewayTimeout else FromCache
    else if e.arrived.None? then Unanswered
    else if !hasCache then PassedOn
    else if plan.cached.Some? && e.stored.Some? && StillValid(e.stored.value, e.arrived.value) then Revalidated
    else if Cacheable(q, wishes, e.arrived.value) then Caching
    else PassedOn
  }

  function Warned(headers: Fields, warnings: seq<string>): Fields
    decreases |warnings|
  {
    if warnings == [] then headers else Warned(Insert(headers, Field("Warning", warnings[0])), warnings[1..])
  }

  /**
   The response given to the user shows this: after a revalidation the merged headers, and of two Location headers the
   one from the network; without asking, the stored headers with the warnings of the decision.
   */
  predicate Shows(r: Response, route: Route, plan: Decisions.Decision, e: Met) {
    match route
    case GatewayTimeout => r.code == GATEWAY_TIMEOUT && r.location == NoLocation && r.headers == [] && r.body == NoBody
    case FromCache =>
      && e.stored.Some? && plan.cached.Some? && r.code == e.stored.value.code && r.location == e.stored.value.location
      && r.headers == Warned(e.stored.value.headers, plan.cached.value) && r.body == StoredBody
    case Unanswered => false
    case Revalidated =>
      && e.stored.Some? && e.arrived.Some? && r.code == e.stored.value.code && r.body == StoredBody
      && r.location == (if e.arrived.value.location.NoLocation? then e.stored.value.location
                        else e.arrived.value.location)
      && r.headers == Merge(e.stored.value.headers, e.arrived.value.headers)
    case _ =>
      && e.arrived.Some? && r.code == e.arrived.value.code && r.location == e.arrived.value.location
      && r.headers == e.arrived.value.headers && r.body == if route.Caching? then CachingBody else NetworkBody
  }

  /** What is written to the table after a revalidation. */
  datatype Refresh = Refresh(headers: Fields, sent: int, received: int)

  /** The refresh that a run makes: the merged headers, and the times of the response that confirmed them. */
  function Refreshes(route: Route, e: Met): Option<Refresh> {
    if route.Revalidated? && e.stored.Some? && e.arrived.Some? then
      var a := e.arrived.value;
      Some(Refresh(Merge(e.stored.value.headers, a.headers), a.sent, a.received))
    else None
  }

  /** An exception ends the run: nothing arrived, or the stored body cannot be opened. */
  predicate Throws(route: Route, e: Met) {
    route.Unanswered? || ((route.FromCache? || route.Revalidated?) && !e.opens)
  }

  // ---- one run ----

  predicate RegularlyMet(wishes: Wishes, e: Met) {
    e.stored.Some? ==> Decisions.Regular(Decisions.Directives(wishes.control), e.stored.value.facts, e.now)
  }

  predicate Serves(wishes: Wishes, e: Met) {
    e.stored.Some? && Decisions.Serves(Decisions.Directives(wishes.control), e.stored.value.facts, e.now)
  }

  /**
   The two ways to answer without the network: status 504 exactly when only the cache may answer and it cannot, and the
   stored response exactly while it is servable. Otherwise a request goes out, as it does whenever the cache is not
   asked: for other methods than GET, with credentials or a condition of the caller, and with no-cache.
   */
  lemma QuietIff(hasCache: bool, q: Request, wishes: Wishes, e: Met)
    requires RegularlyMet(wishes, e)
    ensures var route, wanted := RouteOf(hasCache, q, wishes, e), Decisions.Directives(wishes.control);
            var looks := && hasCache && q.verb == Get && !wanted.noCache
                         && ValuesOf(q.headers, "Authorization") == []
                         && ValuesOf(q.headers, "If-Modified-Since") == []
                         && ValuesOf(q.headers, "If-None-Match") == [];
            && (route.GatewayTimeout? <==> looks && wanted.onlyIfCached && !Serves(wishes, e))
            && (route.FromCache? <==> looks && Serves(wishes, e))
  {
    LooksIff(q, wishes);
    Decisions.NeitherIff(Decisions.Directives(wishes.control), Facts(e.stored), e.now);
    if e.stored.Some? {
      Decisions.ServedUntilExpiry(Decisions.Directives(wishes.control), e.stored.value.facts, e.now, e.now);
    }
  }

  lemma LooksIff(q: Request, wishes: Wishes)
    ensures AvailableToCache(q, wishes) <==>
              && q.verb == Get && !Decisions.Directives(wishes.control).noCache
              && ValuesOf(q.headers, "Authorization") == []
              && ValuesOf(q.headers, "If-Modified-Since") == [] && ValuesOf(q.headers, "If-None-Match") == []
  {
    HasIffValues(q.headers, "Authorization");
    HasIffValues(q.headers, "If-Modified-Since");
    HasIffValues(q.headers, "If-None-Match");
  }

  /**
   A stored response is given out after asking only if the request that went out carried a condition made from it, and
   exactly when the answer then is status 304 or has an older modification date: a status 304 to any other request is
   passed on as it is.
   */
  lemma RevalidatedIff(hasCache: bool, q: Request, wishes: Wishes, e: Met)
    requires RegularlyMet(wishes, e)
    ensures RouteOf(hasCache, q, wishes, e).Revalidated? <==>
              && hasCache && AvailableToCache(q, wishes) && e.stored.Some? && e.arrived.Some?
              && !Serves(wishes, e) && !Decisions.Directives(wishes.control).onlyIfCached
              && var was, came := e.stored.value.facts, e.arrived.value;
                 && (was.etag.Some? || !was.lastModified.NoHeader? || !was.date.NoHeader?)
                 && (came.code == 304
                     || (was.lastModified.Date? && came.lastModified.Date?
                         && came.lastModified.epoch < was.lastModified.epoch))
    ensures e.arrived.Some? && e.arrived.value.code == NOT_MODIFIED
            && Plan(hasCache, q, wishes, e).network == Decisions.Send(None) ==>
              RouteOf(hasCache, q, wishes, e).PassedOn?
  {
    if e.stored.Some? {
      Decisions.KeptIffConditional(Decisions.Directives(wishes.control), e.stored.value.facts, e.now);
    }
  }

  /** The codes that may be stored whatever else is said, and those that need an expiry or leave to be stored. */
  lemma StorableCodes(a: Arrived)
    ensures a.code in {200, 203, 204, 300, 301, 404, 405, 410, 414, 501} ==> StorableCode(a)
    ensures a.code in {302, 307, 308} ==>
              (StorableCode(a) <==>
                 a.hasExpires || (a.control.Some? && (a.control.value.isPublic || a.control.value.isPrivate
                                                      || a.control.value.maxAge != -1)))
    ensures StorableCode(a) ==> a.code in {200, 203, 204, 300, 301, 302, 307, 308, 404, 405, 410, 414, 501}
  {
  }

  /**
   What comes from the network is stored exactly when it answers a GET without credentials, neither side says no-store,
   its code may be stored and its end can be told; so nothing is ever stored for another method.
   */
  lemma StoredIff(hasCache: bool, q: Request, wishes: Wishes, e: Met)
    requires e.arrived.Some? && Plan(hasCache, q, wishes, e).network.Send?
    ensures var a, route := e.arrived.value, RouteOf(hasCache, q, wishes, e);
            route.Caching? <==>
              && hasCache && !route.Revalidated? && q.verb == Get && ValuesOf(q.headers, "Authorization") == []
              && !wishes.noStore && (a.control.None? || !a.control.value.noStore) && StorableCode(a)
              && (a.chunked || (a.contentLength.Some? && a.contentLength.value != -1))
  {
    HasIffValues(q.headers, "Authorization");
  }

  /** The warnings of the decision are added to those that the stored response has, and nothing else. */
  lemma {:induction false} WarnedValues(headers: Fields, warnings: seq<string>, name: string)
    requires Grouped(headers)
    ensures Grouped(Warned(headers, warnings))
    ensures ValuesOf(Warned(headers, warnings), name) ==
              ValuesOf(headers, name) + if Same("Warning", name) then warnings else []
    decreases |warnings|
  {
    if warnings != [] {
      var first := Insert(headers, Field("Warning", warnings[0]));
      InsertValues(headers, Field("Warning", warnings[0]), name);
      WarnedValues(first, warnings[1..], name);
      assert warnings == [warnings[0]] + warnings[1..];
    }
  }

  // ---- along redirects ----

  predicate Conditional(q: Request) {
    Has(q.headers, "If-None-Match") || Has(q.headers, "If-Modified-Since")
  }

  lemma ConditionGoesAlong(p: Response, q: Request)
    requires Redirected(p, q) && Conditional(p.request)
    ensures Conditional(q)
  {
    var f := Field(if Has(p.request.headers, "If-None-Match") then "If-None-Match" else "If-Modified-Since", "");
    if Same(f.name, "Authorization") {
      NotAuthorization(f, "Authorization");
    }
    HeaderStays(p, q, f.name);
  }

  lemma ConditionalGoesOut(hasCache: bool, q: Request, wishes: Wishes, e: Met)
    requires Conditional(q)
    ensures RouteOf(hasCache, q, wishes, e) in {Unanswered, Caching, PassedOn}
  {
  }

  lemma {:induction false} StaysConditional(replies: seq<Response>, i: nat)
    requires Linked(replies) && i < |replies| && Conditional(replies[i].request)
    ensures Conditional(replies[|replies| - 1].request)
    decreases |replies|
  {
    var n := |replies| - 1;
    if i < n {
      var followed := replies[..n];
      assert followed[i] == replies[i] && followed[n - 1] == replies[n - 1];
      StaysConditional(followed, i);
      LinkedLast(replies);
      ConditionGoesAlong(replies[n - 1], replies[n].request);
    }
  }

  /**
   A condition header stays on once it is there: when a request with one is redirected, every later request of the call
   has it too, whatever url it was made for, and so none of them is answered from the cache, not even one of a new
   engine for the last of them.
   */
  lemma ConditionStays(replies: seq<Response>, i: nat, hasCache: bool, wishes: Wishes, e: Met)
    requires Linked(replies) && i < |replies| && Conditional(replies[i].request)
    ensures var last := replies[|replies| - 1].request;
            Conditional(last) && RouteOf(hasCache, last, wishes, e) in {Unanswered, Caching, PassedOn}
  {
    StaysConditional(replies, i);
    ConditionalGoesOut(hasCache, replies[|replies| - 1].request, wishes, e);
  }
}
