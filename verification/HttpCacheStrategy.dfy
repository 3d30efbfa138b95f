/** The cache decision as an object: its constructor looks at the stored response and fills in the two answers. */
module CacheStrategy {
  import opened Options
  import opened CacheDecisionSpec

  class HttpCacheStrategy {
    const nowAtEpoch: int
    const request: Option<CacheControl>
    const stored: Option<Stored>
    var networkRequest: Network
    var cacheResponse: Option<seq<string>>
    var responseDate: int
    var responseDateExisted: bool
    var lastModified: int
    var lastModifiedExisted: bool
    var expires: int
    var expiresExisted: bool
    var ageSec: int
    var ageExisted: bool

    /** The fields hold what could be read from the headers of the stored response. */
    ghost predicate Prepared(r: Stored)
      reads this
    {
      && responseDateExisted == r.date.Date? && (responseDateExisted ==> responseDate == r.date.epoch)
      && lastModifiedExisted == r.lastModified.Date? && (lastModifiedExisted ==> lastModified == r.lastModified.epoch)
      && expiresExisted == r.expires.Date? && (expiresExisted ==> expires == r.expires.epoch)
      && ageExisted == !r.age.NoAge? && ageSec == if r.age.Age? then r.age.sec else -1
    }

    constructor (request: Option<CacheControl>, stored: Option<Stored>, nowAtEpoch: int)
      ensures Decision(networkRequest, cacheResponse) == Decide(Directives(request), stored, nowAtEpoch)
    {
      this.request, this.stored, this.nowAtEpoch := request, stored, nowAtEpoch;
      networkRequest := Send(None);
      cacheResponse := if stored.Some? then Some([]) else None;
      responseDate, responseDateExisted, lastModified, lastModifiedExisted := 0, false, 0, false;
      expires, expiresExisted, ageSec, ageExisted := 0, false, -1, false;
      new;
      if stored.Some? {
        if stored.value.date.Date? {
          responseDate, responseDateExisted := stored.value.date.epoch, true;
        }
        if stored.value.lastModified.Date? {
          lastModified, lastModifiedExisted := stored.value.lastModified.epoch, true;
        }
        if stored.value.expires.Date? {
          expires, expiresExisted := stored.value.expires.epoch, true;
        }
        if !stored.value.age.NoAge? {
          ageExisted := true;
          ageSec := if stored.value.age.Age? then stored.value.age.sec else -1;
        }
        ResolveCacheResponseAndNetworkRequest();
      } else if request.Some? && request.value.onlyIfCached {
        networkRequest := NoRequest;
      }
    }

    /** The two sides of the test, from the directives of request and response. */
    method Bounds() returns (ageNow: int, freshSec: int, minFresh: int, maxStale: int)
      requires stored.Some? && Prepared(stored.value)
      ensures ageNow == Age64(stored.value, nowAtEpoch) && freshSec == Limit64(Directives(request), stored.value)
      ensures minFresh == MinFresh64(Directives(request)) && maxStale == MaxStale64(Directives(request), stored.value)
    {
      ageNow := CalculateCacheResponseAge(stored.value);
      freshSec := CalculateFreshnessLifetime(stored.value);
      var requestMaxAge, requestMinFresh, requestMaxStale := -1, -1, -1;
      if request.Some? {
        requestMaxAge, requestMinFresh := request.value.maxAge, request.value.minFresh;
        requestMaxStale := request.value.maxStale;
      }
      var mustRevalidate := stored.value.control.Some? && stored.value.control.value.mustRevalidate;
      if requestMaxAge != -1 {
        freshSec := Min(freshSec, Unsigned64(requestMaxAge));
      }
      minFresh := 0;
      if requestMinFresh != -1 {
        minFresh := Unsigned64(requestMinFresh);
      }
      maxStale := 0;
      if !mustRevalidate && requestMaxStale != -1 {
        maxStale := Unsigned64(requestMaxStale);
      }
    }

    method ResolveCacheResponseAndNetworkRequest()
      requires stored.Some? && Prepared(stored.value) && cacheResponse == Some([])
      modifies this`networkRequest, this`cacheResponse
      ensures Decision(networkRequest, cacheResponse) == Decide(Directives(request), stored, nowAtEpoch)
    {
      networkRequest := NoRequest;
      var ageNow, freshSec, minFresh, maxStale := Bounds();
      var onlyIfCached := request.Some? && request.value.onlyIfCached;
      var noCache, responseMaxAge := false, -1;
      if stored.value.control.Some? {
        noCache, responseMaxAge := stored.value.control.value.noCache, stored.value.control.value.maxAge;
      }
      var needed, available := Unsigned64(ageNow + minFresh), Unsigned64(freshSec + maxStale);
      if !noCache && needed < available {
        var stale, aged := needed >= freshSec, ageNow > ONE_DAY_SEC && responseMaxAge == -1 && !expiresExisted;
        var extraHeaders := ExtraHeaders(stale, aged);
        cacheResponse := Some(extraHeaders);
        return;
      }
      if onlyIfCached {
        cacheResponse := None;
        return;
      }
      MakeConditionalRequest();
    }

    static method ExtraHeaders(stale: bool, aged: bool) returns (extraHeaders: seq<string>)
      ensures extraHeaders == (if stale then [RESPONSE_IS_STALE] else []) + if aged then [HEURISTIC_EXPIRATION] else []
    {
      extraHeaders := [];
      if stale {
        extraHeaders := extraHeaders + [RESPONSE_IS_STALE];
      }
      if aged {
        extraHeaders := extraHeaders + [HEURISTIC_EXPIRATION];
      }
    }

    method MakeConditionalRequest()
      requires stored.Some? && cacheResponse == Some([])
      modifies this`networkRequest, this`cacheResponse
      ensures networkRequest == Send(Condition(stored.value))
      ensures cacheResponse == if Condition(stored.value).Some? then Some([]) else None
      ensures var r := stored.value;
              && (r.etag.Some? ==> networkRequest == Send(Some(("If-None-Match", r.etag.value))))
              && (r.etag.None? && !r.lastModified.NoHeader? ==>
                    networkRequest == Send(Some(("If-Modified-Since", r.lastModified.text))))
              && (r.etag.None? && r.lastModified.NoHeader? && !r.date.NoHeader? ==>
                    networkRequest == Send(Some(("If-Modified-Since", r.date.text))))
              && (cacheResponse.None? <==> r.etag.None? && r.lastModified.NoHeader? && r.date.NoHeader?)
    {
      var condition: Option<(string, string)> := None;
      if stored.value.etag.Some? {
        condition := Some(("If-None-Match", stored.value.etag.value));
      } else if !stored.value.lastModified.NoHeader? {
        condition := Some(("If-Modified-Since", stored.value.lastModified.text));
      } else if !stored.value.date.NoHeader? {
        condition := Some(("If-Modified-Since", stored.value.date.text));
      } else {
        cacheResponse := None;
      }
      networkRequest := Send(condition);
    }

    function CalculateCacheResponseAge(r: Stored): (age: int)
      requires Prepared(r)
      reads this
      ensures age == Age64(r, nowAtEpoch)
    {
      var apparentReceivedAge := if responseDateExisted then Max(0, Signed64(r.received - responseDate)) else 0;
      var receivedAge := if ageExisted then Max(apparentReceivedAge, ageSec) else apparentReceivedAge;
      var responseDuration := Signed64(r.received - r.sent);
      var residentDuration := Signed64(Unsigned64(nowAtEpoch - r.received));
      Unsigned64(Signed64(Signed64(receivedAge + responseDuration) + residentDuration))
    }

    function CalculateFreshnessLifetime(r: Stored): (freshSec: int)
      requires Prepared(r)
      reads this
      ensures freshSec == Fresh64(r)
    {
      if r.control.Some? && r.control.value.maxAge != -1 then
        Unsigned64(r.control.value.maxAge)
      else if expiresExisted then
        var responseSec := if responseDateExisted then responseDate else r.received;
        var delta := Signed64(expires - responseSec);
        if delta > 0 then delta else 0
      else if lastModifiedExisted && !r.hasQuery then
        var responseSec := if responseDateExisted then responseDate else r.sent;
        var delta := Signed64(responseSec - lastModified);
        if delta > 0 then delta / 10 else 0
      else
        0
    }
  }
}
