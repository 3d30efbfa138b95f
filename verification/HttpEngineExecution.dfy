/**
 The answer of one engine: the look into the cache, and the four places where a user response is built. How the request
 goes over a connection is the business of module `Engine`; here it either brings a response or does not.
 */
module EngineExecution {
  import opened Options
  import opened HeaderMergeSpec
  import opened RedirectSpec
  import opened UserResponseSpec
  import CacheStrategy
  import Decisions = CacheDecisionSpec

  /** The stored response as the cache strategy leaves it, if it keeps it. */
  function Kept(plan: Decisions.Decision, e: Met): Option<Cached> {
    if plan.cached.Some? && e.stored.Some? then
      Some(e.stored.value.(headers := Warned(e.stored.value.headers, plan.cached.value)))
    else None
  }

  class HttpEngine {
    const hasCache: bool
    const wishes: Wishes
    const priorResponse: Option<Response>
    var userRequest: Request
    var cacheResponse: Option<Cached>

    constructor (hasCache: bool, wishes: Wishes, request: Request, prior: Option<Response>)
      ensures this.hasCache == hasCache && this.wishes == wishes && priorResponse == prior
      ensures userRequest == request && cacheResponse == None
    {
      this.hasCache, this.wishes, priorResponse := hasCache, wishes, prior;
      userRequest, cacheResponse := request, None;
    }

    static function Stripped(r: Option<Response>): (s: Option<Response>)
      ensures s.Some? <==> r.Some?
      ensures s.Some? ==> s.value == StripBody(r.value)
    {
      if r.None? then None else if HasBody(r.value) then Some(r.value.(body := NoBody)) else r
    }

    /** The condition is set in the header list that the request shares with its builder, so the user's has it too. */
    method SetCondition(condition: (string, string))
      modifies this`userRequest
      ensures userRequest == old(userRequest).(headers :=
                Insert(old(userRequest.headers), Field(condition.0, condition.1)))
    {
      userRequest := userRequest.(headers := Insert(userRequest.headers, Field(condition.0, condition.1)));
    }

    /** What the cache strategy decides; the stored response, with its warnings, is kept only if it says so. */
    method Consult(e: Met) returns (network: Decisions.Network)
      requires hasCache && AvailableToCache(userRequest, wishes) && cacheResponse == None
      modifies this`cacheResponse, this`userRequest
      ensures var plan := Plan(hasCache, old(userRequest), wishes, e);
              network == plan.network && cacheResponse == Kept(plan, e)
              && userRequest == Sent(old(userRequest), plan.network)
    {
      var facts := Facts(e.stored);
      var strategy := new CacheStrategy.HttpCacheStrategy(wishes.control, facts, e.now);
      network := strategy.networkRequest;
      cacheResponse := Kept(Decisions.Decision(network, strategy.cacheResponse), e);
      if network.Send? && network.condition.Some? {
        SetCondition(network.condition.value);
      }
    }

    /** The request that goes out is the user's, or that with a condition header added to it. */
    static lemma SentIsFor(hasCache: bool, q: Request, wishes: Wishes, e: Met)
      ensures SentFor(q, Sent(q, Plan(hasCache, q, wishes, e).network))
    {
      var network := Plan(hasCache, q, wishes, e).network;
      if network.Send? && network.condition.Some? {
        var f := Field(network.condition.value.0, network.condition.value.1);
        Decisions.ConditionOfKept(Decisions.Directives(wishes.control), Facts(e.stored), e.now);
        assert ConditionHeader(f) && Sent(q, network) == q.(headers := Insert(q.headers, f));
      }
    }

    /**
     The stored response for the user, with merged headers if the server has confirmed it; in that case the table is
     refreshed first, even if the stored body then cannot be opened.
     */
    method CreateUserResponseFromCacheResponse(stored: Cached, arrived: Option<Arrived>, opens: bool)
      returns (reply: Option<Response>, refresh: Option<Refresh>)
      ensures reply.Some? <==> opens
      ensures reply.Some? ==>
                && HasPrior(reply.value, priorResponse) && reply.value.request == userRequest
                && reply.value.code == stored.code && reply.value.body == StoredBody
                && reply.value.location == (if arrived.None? || arrived.value.location.NoLocation? then stored.location
                                            else arrived.value.location)
                && reply.value.headers == if arrived.None? then stored.headers
                                          else Merge(stored.headers, arrived.value.headers)
      ensures refresh == if arrived.None? then None else
        Some(Refresh(Merge(stored.headers, arrived.value.headers), arrived.value.sent, arrived.value.received))
    {
      var location, headers := stored.location, stored.headers;
      refresh := None;
      if arrived.Some? {
        headers := Merge(stored.headers, arrived.value.headers);
        refresh := Some(Refresh(headers, arrived.value.sent, arrived.value.received));
        if !arrived.value.location.NoLocation? {
          location := arrived.value.location;
        }
      }
      if !opens {
        return None, refresh;
      }
      reply := Some(Response(userRequest, stored.code, location, headers, StoredBody, Stripped(priorResponse)));
    }

    method CreateUserResponseFromNetworkResponse(network: Response) returns (reply: Response)
      ensures HasPrior(reply, priorResponse) && reply == network.(prior := reply.prior)
    {
      reply := network.(prior := Stripped(priorResponse));
    }

    /** The body of the network response is exchanged for one that stores what is read from it. */
    method CreateUserResponseWithCaching(network: Response) returns (reply: Response)
      requires network.body == NetworkBody
      ensures HasPrior(reply, priorResponse) && reply == network.(body := CachingBody, prior := reply.prior)
    {
      var stripped := Stripped(Some(network)).value;
      reply := stripped.(body := CachingBody).(prior := Stripped(priorResponse));
    }

    /** A response without the network, or an exception, or else the request to send. */
    method CheckCacheBeforeSendRequest(e: Met) returns (reply: Option<Response>, threw: bool)
      requires cacheResponse == None
      modifies this
      ensures var plan := Plan(hasCache, old(userRequest), wishes, e);
              var route := RouteOf(hasCache, old(userRequest), wishes, e);
              && cacheResponse == Kept(plan, e) && userRequest == Sent(old(userRequest), plan.network)
              && (reply.Some? || threw <==> plan.network.NoRequest?)
              && (threw <==> route.FromCache? && !e.opens) && (threw ==> reply.None?)
              && (reply.Some? ==>
                    && HasPrior(reply.value, priorResponse) && reply.value.request == userRequest
                    && Shows(reply.value, route, plan, e))
    {
      reply, threw := None, false;
      if !hasCache || !AvailableToCache(userRequest, wishes) {
        return;
      }
      var network := Consult(e);
      if network.NoRequest? && cacheResponse.None? {
        reply := Some(Response(userRequest, GATEWAY_TIMEOUT, NoLocation, [], NoBody, Stripped(priorResponse)));
        return;
      }
      if network.NoRequest? {
        var refresh;
        reply, refresh := CreateUserResponseFromCacheResponse(cacheResponse.value, None, e.opens);
        threw := reply.None?;
      }
    }

    /**
     What is made of a response from the network; `removed` when what is stored for its url is removed, `refresh` what
     is written to the table about the stored response.
     */
    method Conclude(a: Arrived, e: Met)
      returns (reply: Option<Response>, removed: bool, refresh: Option<Refresh>, ghost route: Route)
      requires e.arrived == Some(a) && cacheResponse in {None, e.stored}
      ensures route == if !hasCache then PassedOn
                       else if cacheResponse.Some? && StillValid(cacheResponse.value, a) then Revalidated
                       else if Cacheable(userRequest, wishes, a) then Caching else PassedOn
      ensures reply.None? <==> route.Revalidated? && !e.opens
      ensures reply.Some? ==> HasPrior(reply.value, priorResponse) && reply.value.request == userRequest
      ensures reply.Some? ==> forall plan :: Shows(reply.value, route, plan, e)
      ensures removed <==> hasCache && route.PassedOn? && Invalidates(userRequest, a)
      ensures refresh == Refreshes(route, e)
    {
      var network := Response(userRequest, a.code, a.location, a.headers, NetworkBody, None);
      removed, refresh := false, None;
      if !hasCache {
        var passed := CreateUserResponseFromNetworkResponse(network);
        return Some(passed), false, None, PassedOn;
      }
      if cacheResponse.Some? && StillValid(cacheResponse.value, a) {
        reply, refresh := CreateUserResponseFromCacheResponse(cacheResponse.value, Some(a), e.opens);
        return reply, false, refresh, Revalidated;
      }
      if Cacheable(userRequest, wishes, a) {
        var caching := CreateUserResponseWithCaching(network);
        return Some(caching), false, None, Caching;
      }
      removed := Invalidates(userRequest, a);
      var passed := CreateUserResponseFromNetworkResponse(network);
      reply, route := Some(passed), PassedOn;
    }

    /**
     One run of the engine: the request it sends is its own with the condition of the decision, and whichever way it
     answers, the answer is for that and after its prior response.
     */
    method Execute(e: Met)
      returns (reply: Option<Response>, removed: bool, refresh: Option<Refresh>, ghost route: Route)
      requires cacheResponse == None
      modifies this
      ensures route == RouteOf(hasCache, old(userRequest), wishes, e)
      ensures reply.None? <==> Throws(route, e)
      ensures userRequest == Sent(old(userRequest), Plan(hasCache, old(userRequest), wishes, e).network)
      ensures reply.Some? ==> HasPrior(reply.value, priorResponse) && reply.value.request == userRequest
      ensures SentFor(old(userRequest), userRequest)
      ensures reply.Some? ==> Shows(reply.value, route, Plan(hasCache, old(userRequest), wishes, e), e)
      ensures removed <==>
                && hasCache && route.PassedOn? && 200 <= e.arrived.value.code < 300
                && old(userRequest).verb in [Post, Patch, Put, Delete]
      ensures refresh == Refreshes(route, e)
      ensures reply.Some? && route.GatewayTimeout? ==> reply.value.code == 504
    {
      var threw;
      removed, refresh, route := false, None, RouteOf(hasCache, userRequest, wishes, e);
      reply, threw := CheckCacheBeforeSendRequest(e);
      SentIsFor(hasCache, old(userRequest), wishes, e);
      if threw || reply.Some? || e.arrived.None? {
        return;
      }
      ghost var concluded;
      NotWarned(hasCache, old(userRequest), wishes, e);
      reply, removed, refresh, concluded := Conclude(e.arrived.value, e);
      SentIsCacheable(old(userRequest), userRequest, wishes, e.arrived.value);
    }

    /** A stored response kept beside a request that goes out has no warnings. */
    static lemma NotWarned(hasCache: bool, q: Request, wishes: Wishes, e: Met)
      ensures var plan := Plan(hasCache, q, wishes, e);
              plan.network.Send? && plan.cached.Some? ==> plan.cached == Some([]) && e.stored.Some?
    {
    }

    /** A condition header makes no difference to whether the response may be stored. */
    static lemma SentIsCacheable(q: Request, sent: Request, wishes: Wishes, a: Arrived)
      requires SentFor(q, sent)
      ensures Cacheable(sent, wishes, a) <==> Cacheable(q, wishes, a)
    {
      if sent != q {
        var f :| ConditionHeader(f) && sent == q.(headers := Insert(q.headers, f));
        InsertHas(q.headers, f, "Authorization");
        NotAuthorization(f, "Authorization");
      }
    }
  }
}
