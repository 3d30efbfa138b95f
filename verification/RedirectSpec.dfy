/** Redirects: when a response makes the client send another request, which one, and the chain of responses followed. */
module RedirectSpec {
  import opened Options
  import opened Text
  import opened HeaderMergeSpec

  /** The most redirects followed in one call. */
  const MAX_RETRY_COUNT: nat := 5

  datatype Url = Url(scheme: string, host: string, port: nat, path: string)

  datatype Method = Get | Head | Post | Put | Patch | Delete

  datatype Request = Request(url: Url, verb: Method, headers: Fields)

  /** The Location header of a response, as far as it can be understood. */
  datatype Location = NoLocation | EmptyLocation | Undecodable | DecodesToNothing | Malformed | Target(url: Url)

  /** Where the body of a response comes from: nowhere, the network, with or without storing it, or the cache. */
  datatype Body = NoBody | NetworkBody | CachingBody | StoredBody

  datatype Response = Response(request: Request, code: int, location: Location, headers: Fields, body: Body,
                               prior: Option<Response>)

  predicate HasBody(r: Response) {
    !r.body.NoBody?
  }

  /** What follows a response: nothing, another request, or an exception about its Location. */
  datatype Retry = NoRetry | RetryWith(request: Request) | BadUri

  predicate IsRetryStatusCode(r: Response) {
    r.code in [301, 302, 303, 307, 308] && r.request.verb in [Get, Head]
  }

  function RetryRequest(r: Response): Retry {
    if !IsRetryStatusCode(r) then NoRetry
    else match r.location
      case NoLocation => NoRetry
      case EmptyLocation => NoRetry
      case Undecodable => NoRetry
      case DecodesToNothing => NoRetry
      case Malformed => BadUri
      case Target(url) =>
        if r.request.url.scheme != url.scheme then NoRetry
        else RetryWith(Request(url, r.request.verb, RetryHeaders(r.request.headers, r.request.url, url)))
  }

  /** Whether a header goes along: Authorization does not when the host or port changes. */
  predicate GoesAlong(f: Field, from: Url, to: Url) {
    Same(f.name, "Authorization") ==> from.scheme == to.scheme && from.host == to.host && from.port == to.port
  }

  function RetryHeaders(headers: Fields, from: Url, to: Url): Fields {
    if headers == [] then []
    else
      var init, f := RetryHeaders(headers[..|headers| - 1], from, to), headers[|headers| - 1];
      if GoesAlong(f, from, to) then Insert(init, f) else init
  }

  function StripBody(r: Response): Response {
    r.(body := NoBody)
  }

  /** The prior responses of a response, latest first. */
  function Chain(r: Response): seq<Response> {
    if r.prior.None? then [] else [r.prior.value] + Chain(r.prior.value)
  }

  /** The prior response of `r` is `p`, without body, or none if there is no `p`. */
  predicate HasPrior(r: Response, p: Option<Response>) {
    r.prior == if p.Some? then Some(StripBody(p.value)) else None
  }

  predicate ConditionHeader(f: Field) {
    f.name == "If-None-Match" || f.name == "If-Modified-Since"
  }

  /** `sent` is the request `q` as it goes out: unchanged, or with a condition header added to it. */
  ghost predicate SentFor(q: Request, sent: Request) {
    sent == q || exists f: Field :: ConditionHeader(f) && sent == q.(headers := Insert(q.headers, f))
  }

  ghost predicate Redirected(p: Response, q: Request) {
    RetryRequest(p).RetryWith? && SentFor(RetryRequest(p).request, q)
  }

  function Last(replies: seq<Response>): Option<Response> {
    if replies == [] then None else Some(replies[|replies| - 1])
  }

  /** `r` may come next: first of all without a prior response, later as the answer to a redirect. */
  ghost predicate ComesAfter(p: Option<Response>, r: Response) {
    HasPrior(r, p) && (p.Some? ==> Redirected(p.value, r.request))
  }

  /** The responses of one call, in order. */
  ghost predicate Linked(replies: seq<Response>)
    decreases |replies|
  {
    replies == [] || (var n := |replies| - 1; Linked(replies[..n]) && ComesAfter(Last(replies[..n]), replies[n]))
  }

  // ---- properties ----

  /** The prior chain of a response is exactly the redirects followed to get it, latest first, without bodies. */
  lemma {:induction false} ChainIsFollowed(replies: seq<Response>)
    requires replies != [] && Linked(replies)
    ensures var n := |replies| - 1;
            && |Chain(replies[n])| == n
            && forall i | 0 <= i < n :: Chain(replies[n])[i] == StripBody(replies[n - 1 - i])
    decreases |replies|
  {
    var n := |replies| - 1;
    if n > 0 {
      var last := replies[n - 1];
      ChainIsFollowed(replies[..n]);
      assert Chain(StripBody(last)) == Chain(last);
      assert Chain(replies[n]) == [StripBody(last)] + Chain(last);
    }
  }

  /** No call leaves the scheme or the method of its first request, however many redirects it follows. */
  lemma {:induction false} SchemeStays(replies: seq<Response>)
    requires replies != [] && Linked(replies)
    ensures var r := replies[|replies| - 1];
            && r.request.url.scheme == replies[0].request.url.scheme && r.request.verb == replies[0].request.verb
            && (|replies| > 1 ==> r.request.verb in [Get, Head])
    decreases |replies|
  {
    var n := |replies| - 1;
    if n > 0 {
      SchemeStays(replies[..n]);
    }
  }

  lemma {:induction false} RetryHeadersValues(headers: Fields, from: Url, to: Url, name: string)
    ensures Grouped(RetryHeaders(headers, from, to))
    ensures ValuesOf(RetryHeaders(headers, from, to), name)
         == if Same(name, "Authorization") && (from.scheme != to.scheme || from.host != to.host || from.port != to.port)
            then [] else ValuesOf(headers, name)
    decreases |headers|
  {
    if headers != [] {
      var init, f := headers[..|headers| - 1], headers[|headers| - 1];
      assert headers == init + [f];
      RetryHeadersValues(init, from, to, name);
      InsertValues(RetryHeaders(init, from, to), f, name);
      HasSnoc(init, f, name);
    }
  }

  /**
   Which responses are followed: those of status 301, 302, 303, 307 or 308 to a GET or HEAD whose Location names a
   target of the same scheme. A Location that is no url ends the call; everything else is the final response.
   */
  lemma FollowedIff(r: Response)
    ensures var redirects := (r.code == 301 || r.code == 302 || r.code == 303 || r.code == 307 || r.code == 308)
                             && (r.request.verb == Get || r.request.verb == Head);
            && (RetryRequest(r).RetryWith? <==>
                  redirects && r.location.Target? && r.location.url.scheme == r.request.url.scheme)
            && (RetryRequest(r).BadUri? <==> redirects && r.location == Malformed)
            && (RetryRequest(r).RetryWith? ==> RetryRequest(r).request.url == r.location.url)
  {
  }

  /**
   The request that follows a redirect: to the target, by the same method, with every header it had, except that
   Authorization is left out exactly when the host or the port changes.
   */
  lemma RedirectedRequest(r: Response, name: string)
    requires RetryRequest(r).RetryWith?
    ensures var q := RetryRequest(r).request;
            && r.location == Target(q.url) && q.url.scheme == r.request.url.scheme && q.verb == r.request.verb
            && ValuesOf(q.headers, name)
            == if Same(name, "Authorization") && (q.url.host != r.request.url.host || q.url.port != r.request.url.port)
               then [] else ValuesOf(r.request.headers, name)
  {
    RetryHeadersValues(r.request.headers, r.request.url, r.location.url, name);
  }

  lemma LinkedLast(replies: seq<Response>)
    requires Linked(replies) && |replies| > 1
    ensures Redirected(replies[|replies| - 2], replies[|replies| - 1].request)
  {
  }

  lemma NotAuthorization(f: Field, name: string)
    requires ConditionHeader(f) && Same(name, "Authorization")
    ensures !Same(f.name, name)
  {
    assert Lower(f.name)[0] == 'i' && Lower("Authorization")[0] == 'a';
  }

  lemma SentValues(q: Request, sent: Request, name: string)
    requires SentFor(q, sent) && Grouped(q.headers)
    ensures Grouped(sent.headers) && ValuesOf(q.headers, name) <= ValuesOf(sent.headers, name)
    ensures Same(name, "Authorization") ==> ValuesOf(sent.headers, name) == ValuesOf(q.headers, name)
  {
    if sent != q {
      var f :| ConditionHeader(f) && sent == q.(headers := Insert(q.headers, f));
      InsertValues(q.headers, f, name);
      if Same(name, "Authorization") {
        NotAuthorization(f, name);
      }
    }
  }

  /** A header other than Authorization that a redirected request had is there in the next one. */
  lemma HeaderStays(p: Response, q: Request, name: string)
    requires Redirected(p, q) && Has(p.request.headers, name) && !Same(name, "Authorization")
    ensures Has(q.headers, name)
  {
    var next := RetryRequest(p).request;
    RetryHeadersValues(p.request.headers, p.request.url, next.url, name);
    SentValues(next, q, name);
    HasIffValues(p.request.headers, name);
    HasIffValues(q.headers, name);
  }

  /** All requests up to the last went to the host and port of the first. */
  predicate OneOrigin(replies: seq<Response>) {
    forall i | 0 <= i < |replies| ::
      && replies[i].request.url.host == replies[0].request.url.host
      && replies[i].request.url.port == replies[0].request.url.port
  }

  lemma OneOriginSnoc(replies: seq<Response>)
    requires |replies| > 1
    ensures var n := |replies| - 1;
            var p, q := replies[n - 1].request, replies[n].request;
            OneOrigin(replies) <==> OneOrigin(replies[..n]) && q.url.host == p.url.host && q.url.port == p.url.port
  {
    var n := |replies| - 1;
    assert forall i | 0 <= i < n :: replies[..n][i] == replies[i];
  }

  /** One redirect takes Authorization along or leaves it out; the condition header that may be added is another one. */
  lemma AuthorizationStep(p: Response, q: Request)
    requires Redirected(p, q)
    ensures ValuesOf(q.headers, "Authorization")
         == if q.url.host == p.request.url.host && q.url.port == p.request.url.port
            then ValuesOf(p.request.headers, "Authorization") else []
  {
    RedirectedRequest(p, "Authorization");
    RetryHeadersValues(p.request.headers, p.request.url, RetryRequest(p).request.url, "Authorization");
    SentValues(RetryRequest(p).request, q, "Authorization");
  }

  /**
   Authorization follows a chain of redirects only as long as every one of them stays with the first host and port; once
   left out it never comes back, not even on the way back to the first host.
   */
  lemma {:induction false} AuthorizationFollows(replies: seq<Response>)
    requires replies != [] && Linked(replies)
    ensures ValuesOf(replies[|replies| - 1].request.headers, "Authorization")
         == if OneOrigin(replies) then ValuesOf(replies[0].request.headers, "Authorization") else []
    decreases |replies|
  {
    var n := |replies| - 1;
    if n > 0 {
      var followed := replies[..n];
      assert followed[0] == replies[0] && followed[n - 1] == replies[n - 1];
      AuthorizationFollows(followed);
      LinkedLast(replies);
      OneOriginSnoc(replies);
      AuthorizationStep(replies[n - 1], replies[n].request);
    }
  }
}
