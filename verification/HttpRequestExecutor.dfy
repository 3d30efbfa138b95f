/** One call of the client: the loop that runs an engine for every request and follows redirects. */
module RequestExecutor {
  import opened Options
  import opened HeaderMergeSpec
  import opened RedirectSpec
  import opened UserResponseSpec
  import opened EngineExecution

  /** How a call ends; `Final` returns the user response. */
  datatype Outcome = Final | Cancelled | EngineFailed | UriFailed | ReadFailed | TooManyRetries

  /**
   What one round of a call meets: whether another thread has cancelled the call, what its engine meets, and whether the
   body of a redirect can be read for the cache.
   */
  datatype Round = Round(calledOff: bool, met: Met, readable: bool)

  lemma LinkedSnoc(replies: seq<Response>, r: Response)
    requires Linked(replies) && ComesAfter(Last(replies), r)
    ensures Linked(replies + [r]) && Last(replies + [r]) == Some(r)
  {
    var n, all := |replies|, replies + [r];
    assert all[..n] == replies && all[n] == r;
  }

  /** The first response, if there is one, is for `request`. */
  ghost predicate StartsWith(request: Request, replies: seq<Response>) {
    replies != [] ==> SentFor(request, replies[0].request)
  }

  /** Of a call that began with `request`, `current` is what is asked for after `replies`. */
  ghost predicate Asks(request: Request, replies: seq<Response>, current: Request) {
    && Linked(replies) && StartsWith(request, replies)
    && if Last(replies).None? then current == request else RetryRequest(Last(replies).value) == RetryWith(current)
  }

  /** The answer to `current`, if there is one, carries the chain of responses on. */
  lemma Recorded(request: Request, replies: seq<Response>, current: Request, reply: Option<Response>)
    returns (all: seq<Response>)
    requires Asks(request, replies, current)
    requires reply.Some? ==> SentFor(current, reply.value.request) && HasPrior(reply.value, Last(replies))
    ensures all == if reply.Some? then replies + [reply.value] else replies
    ensures Linked(all) && StartsWith(request, all)
    ensures reply.Some? ==> Last(all) == reply
  {
    all := replies;
    if reply.Some? {
      LinkedSnoc(replies, reply.value);
      all := replies + [reply.value];
    }
  }

  /** What the engine of a request does, given what it meets: it throws, or it answers the request that it sent. */
  ghost predicate Answers(hasCache: bool, wishes: Wishes, q: Request, e: Met, reply: Option<Response>) {
    var plan, route := Plan(hasCache, q, wishes, e), RouteOf(hasCache, q, wishes, e);
    && (reply.None? <==> Throws(route, e))
    && (reply.Some? ==> reply.value.request == Sent(q, plan.network) && Shows(reply.value, route, plan, e))
  }

  /** The round is not cancelled, and its engine does this. */
  ghost predicate Answered(hasCache: bool, wishes: Wishes, q: Request, round: Round, reply: Option<Response>) {
    !round.calledOff && Answers(hasCache, wishes, q, round.met, reply)
  }

  /** The request of engine `i` of a call that began with `request`. */
  function RequestOf(request: Request, replies: seq<Response>, i: nat): Request
    requires i <= |replies|
  {
    if i > 0 && RetryRequest(replies[i - 1]).RetryWith? then RetryRequest(replies[i - 1]).request else request
  }

  /** Each of the replies is what its engine makes of its request and what it meets. */
  ghost predicate AllAnswered(hasCache: bool, wishes: Wishes, request: Request, rounds: nat -> Round,
                              replies: seq<Response>)
  {
    forall i: nat | i < |replies| ::
      Answered(hasCache, wishes, RequestOf(request, replies, i), rounds(i), Some(replies[i]))
  }

  /** The answer of the next engine. */
  lemma AnsweredNext(hasCache: bool, wishes: Wishes, request: Request, rounds: nat -> Round, replies: seq<Response>,
                     reply: Option<Response>, current: Request)
    requires AllAnswered(hasCache, wishes, request, rounds, replies) && Asks(request, replies, current)
    requires Answered(hasCache, wishes, current, rounds(|replies|), reply)
    ensures RequestOf(request, replies, |replies|) == current
    ensures reply.Some? ==> AllAnswered(hasCache, wishes, request, rounds, replies + [reply.value])
  {
    if reply.Some? {
      var all := replies + [reply.value];
      forall i: nat | i < |all|
        ensures Answered(hasCache, wishes, RequestOf(request, all, i), rounds(i), Some(all[i]))
      {
        assert i < |replies| ==> RequestOf(request, all, i) == RequestOf(request, replies, i);
      }
    }
  }

  /** After `replies` the call that began with `request` goes on, and asks for `current`. */
  ghost predicate Underway(hasCache: bool, wishes: Wishes, request: Request, rounds: nat -> Round,
                           replies: seq<Response>, current: Request)
  {
    Asks(request, replies, current) && AllAnswered(hasCache, wishes, request, rounds, replies)
  }

  /** The call that began with `request` ends after `replies` with this outcome. */
  ghost predicate Ends(outcome: Outcome, hasCache: bool, wishes: Wishes, request: Request, rounds: nat -> Round,
                       replies: seq<Response>)
  {
    && Linked(replies) && StartsWith(request, replies) && AllAnswered(hasCache, wishes, request, rounds, replies)
    && match outcome
       case Final => replies != [] && RetryRequest(Last(replies).value).NoRetry?
       case UriFailed => replies != [] && RetryRequest(Last(replies).value).BadUri?
       case ReadFailed =>
         && replies != [] && RetryRequest(Last(replies).value).RetryWith?
         && hasCache && HasBody(Last(replies).value) && !rounds(|replies| - 1).readable
       case EngineFailed => Answered(hasCache, wishes, RequestOf(request, replies, |replies|), rounds(|replies|), None)
       case TooManyRetries =>
         |replies| == 6 && RetryRequest(Last(replies).value).RetryWith?
       case Cancelled => true
  }

  /** What one round makes of a response. */
  ghost predicate Settles(hasCache: bool, reply: Option<Response>, round: Round, ended: Option<Outcome>,
                          next: Request)
  {
    if reply.None? then ended == Some(Cancelled) || ended == Some(EngineFailed)
    else
      match RetryRequest(reply.value)
      case NoRetry => ended == Some(Final)
      case BadUri => ended == Some(UriFailed)
      case RetryWith(q) =>
        && next == q
        && ended == if round.readable || !hasCache || !HasBody(reply.value) then None else Some(ReadFailed)
  }

  /** A round carries the chain of responses on, or ends the call. */
  lemma Rounded(hasCache: bool, wishes: Wishes, request: Request, rounds: nat -> Round, replies: seq<Response>,
                current: Request, reply: Option<Response>, ended: Option<Outcome>, next: Request)
    returns (all: seq<Response>)
    requires Underway(hasCache, wishes, request, rounds, replies, current)
    requires Settles(hasCache, reply, rounds(|replies|), ended, next)
    requires ended != Some(Cancelled) ==> Answered(hasCache, wishes, current, rounds(|replies|), reply)
    requires reply.Some? ==> SentFor(current, reply.value.request) && HasPrior(reply.value, Last(replies))
    ensures |all| == |replies| + if reply.Some? then 1 else 0
    ensures ended == None ==> Underway(hasCache, wishes, request, rounds, all, next)
    ensures ended.Some? ==> Ends(ended.value, hasCache, wishes, request, rounds, all)
    ensures reply.Some? ==> Last(all) == reply
  {
    all := Recorded(request, replies, current, reply);
    if ended != Some(Cancelled) {
      AnsweredNext(hasCache, wishes, request, rounds, replies, reply, current);
    }
  }

  class HttpRequestExecutor {
    const hasCache: bool
    const wishes: Wishes
    var cancelled: bool
    var engines: nat
    var userResponse: Option<Response>

    constructor (hasCache: bool, wishes: Wishes)
      ensures engines == 0 && userResponse == None && this.hasCache == hasCache && this.wishes == wishes
    {
      this.hasCache, this.wishes := hasCache, wishes;
      cancelled, engines, userResponse := false, 0, None;
    }

    /** Another thread may have cancelled the call by now. */
    method LookAtCancelled(calledOff: bool)
      modifies this`cancelled
      ensures cancelled == (old(cancelled) || calledOff)
    {
      cancelled := cancelled || calledOff;
    }

    /** A new engine answers a request, or throws, as what it meets makes it. */
    method RunEngine(request: Request, prior: Option<Response>, met: Met) returns (reply: Option<Response>)
      modifies this`engines
      ensures engines == old(engines) + 1
      ensures Answers(hasCache, wishes, request, met, reply)
      ensures reply.Some? ==> SentFor(request, reply.value.request) && HasPrior(reply.value, prior)
    {
      engines := engines + 1;
      var engine := new HttpEngine(hasCache, wishes, request, prior);
      var removed, refresh;
      ghost var route;
      reply, removed, refresh, route := engine.Execute(met);
    }

    method ReadAllResponseBodyForCache(response: Response, readable: bool) returns (read: bool)
      ensures read <==> readable || !hasCache || !HasBody(response)
    {
      if !hasCache || !HasBody(response) {
        return true;
      }
      read := readable;
    }

    method MakeRetryRequest(r: Response) returns (retry: Retry)
      requires IsRetryStatusCode(r)
      ensures retry == RetryRequest(r)
    {
      match r.location {
        case NoLocation => return NoRetry;
        case EmptyLocation => return NoRetry;
        case Undecodable => return NoRetry;
        case DecodesToNothing => return NoRetry;
        case Malformed => return BadUri;
        case Target(url) =>
          if r.request.url.scheme != url.scheme {
            return NoRetry;
          }
          var headers: Fields := [];
          var i := 0;
          while i < |r.request.headers|
            invariant i <= |r.request.headers|
            invariant headers == RetryHeaders(r.request.headers[..i], r.request.url, url)
          {
            assert r.request.headers[..i + 1][..i] == r.request.headers[..i];
            if GoesAlong(r.request.headers[i], r.request.url, url) {
              headers := Insert(headers, r.request.headers[i]);
            }
            i := i + 1;
          }
          assert r.request.headers[..i] == r.request.headers;
          retry := RetryWith(Request(url, r.request.verb, headers));
      }
    }

    /** What comes after a response: the call ends with it or because of it, or another request is to be sent. */
    method Follow(response: Response, readable: bool) returns (ended: Option<Outcome>, next: Request)
      modifies this`userResponse
      ensures RetryRequest(response).NoRetry? ==> ended == Some(Final) && userResponse == Some(response)
      ensures !RetryRequest(response).NoRetry? ==> userResponse == old(userResponse)
      ensures RetryRequest(response).BadUri? ==> ended == Some(UriFailed)
      ensures RetryRequest(response).RetryWith? ==> next == RetryRequest(response).request
      ensures RetryRequest(response).RetryWith? ==>
                ended == if readable || !hasCache || !HasBody(response) then None else Some(ReadFailed)
    {
      next := response.request;
      var retry := NoRetry;
      if IsRetryStatusCode(response) {
        retry := MakeRetryRequest(response);
      }
      if retry.BadUri? {
        return Some(UriFailed), next;
      }
      if retry.RetryWith? {
        var read := ReadAllResponseBodyForCache(response, readable);
        return if read then None else Some(ReadFailed), retry.request;
      }
      userResponse := Some(response);
      ended := Some(Final);
    }

    /** One round: unless cancelled, an engine answers the request, and what follows is settled. */
    method RunOnce(request: Request, prior: Option<Response>, round: Round)
      returns (ended: Option<Outcome>, reply: Option<Response>, next: Request)
      modifies this
      ensures engines == old(engines) + if ended == Some(Cancelled) then 0 else 1
      ensures Settles(hasCache, reply, round, ended, next)
      ensures ended == Some(Cancelled) <==> old(cancelled) || round.calledOff
      ensures ended == Some(Cancelled) <==> cancelled
      ensures ended != Some(Cancelled) ==> Answered(hasCache, wishes, request, round, reply)
      ensures reply.Some? ==> SentFor(request, reply.value.request) && HasPrior(reply.value, prior)
      ensures userResponse == if ended == Some(Final) then reply else old(userResponse)
    {
      next := request;
      LookAtCancelled(round.calledOff);
      if cancelled {
        return Some(Cancelled), None, next;
      }
      reply := RunEngine(request, prior, round.met);
      if reply.None? {
        return Some(EngineFailed), None, next;
      }
      ended, next := Follow(reply.value, round.readable);
    }

    /**
     At most six engines run, each for the request that the response before it redirects to, as what it meets makes it.
     The response returned is the last one, its prior chain is the redirects followed, and the call gives up only after
     a sixth redirect.
     */
    method ExecuteWithRetry(request: Request, rounds: nat -> Round)
      returns (outcome: Outcome, ghost replies: seq<Response>)
      requires engines == 0
      modifies this
      ensures engines <= 6
      ensures engines == |replies| + if outcome.EngineFailed? then 1 else 0
      ensures Ends(outcome, hasCache, wishes, request, rounds, replies)
      ensures userResponse == if outcome.Final? then Last(replies) else old(userResponse)
      ensures outcome.Cancelled? ==> old(cancelled) || rounds(|replies|).calledOff
      ensures old(cancelled) ==> engines == 0
    {
      var prior: Option<Response> := None;
      var current := request;
      var retryCount := 0;
      replies := [];
      while retryCount <= MAX_RETRY_COUNT
        invariant retryCount == engines == |replies| && retryCount <= MAX_RETRY_COUNT + 1
        invariant userResponse == old(userResponse)
        invariant prior == Last(replies) && Underway(hasCache, wishes, request, rounds, replies, current)
        invariant cancelled == old(cancelled) && (cancelled ==> engines == 0)
        decreases MAX_RETRY_COUNT + 1 - retryCount
      {
        var ended, reply, next := RunOnce(current, prior, rounds(retryCount));
        replies := Rounded(hasCache, wishes, request, rounds, replies, current, reply, ended, next);
        if ended.Some? {
          return ended.value, replies;
        }
        prior, current := reply, next;
        retryCount := retryCount + 1;
      }
      outcome := TooManyRetries;
    }
  }
}
