/**
 Whether a stored response may answer a request: the age and freshness rules of sections 13.2.3 and 13.2.4 of
 RFC 2616, once as the program computes them in 64-bit words and once over the integers.
 */
module CacheDecisionSpec {
  import opened Options

  const TWO64: int := 0x1_0000_0000_0000_0000
  const MAX64: int := 0x7FFF_FFFF_FFFF_FFFF
  const ONE_DAY_SEC: int := 24 * 60 * 60

  /** The latest second that a 64-bit count of microseconds reaches. */
  const MAX_EPOCH: int := 9_223_372_036_854

  const RESPONSE_IS_STALE := "110 - Response is stale"
  const HEURISTIC_EXPIRATION := "113 - Heuristic expiration"

  /** The directives of a Cache-Control header; -1 stands for one that is absent. */
  datatype CacheControl = CacheControl(maxAge: int, maxStale: int, minFresh: int,
                                       noCache: bool, mustRevalidate: bool, onlyIfCached: bool)

  /** A date header: absent, not a date, or a second since the epoch. */
  datatype Stamp = NoHeader | BadDate(text: string) | Date(text: string, epoch: int)

  datatype AgeHeader = NoAge | BadAge | Age(sec: int)

  /** What is known of a stored response. */
  datatype Stored = Stored(sent: int, received: int, date: Stamp, lastModified: Stamp, expires: Stamp, age: AgeHeader,
                           etag: Option<string>, hasQuery: bool, control: Option<CacheControl>)

  /** The request to send, with a condition header added to it or not, if one is to be sent. */
  datatype Network = NoRequest | Send(condition: Option<(string, string)>)

  /** `cached` is the use made of the stored response: the warnings added to it. */
  datatype Decision = Decision(network: Network, cached: Option<seq<string>>)

  function Max(a: int, b: int): int {
    if a < b then b else a
  }

  function Min(a: int, b: int): int {
    if b < a then b else a
  }

  function Unsigned64(x: int): int {
    x % TWO64
  }

  function Signed64(x: int): int {
    (x + MAX64 + 1) % TWO64 - MAX64 - 1
  }

  const NO_DIRECTIVES := CacheControl(-1, -1, -1, false, false, false)

  function Directives(c: Option<CacheControl>): CacheControl {
    if c.Some? then c.value else NO_DIRECTIVES
  }

  // ---- in 64-bit words ----

  function Age64(r: Stored, now: int): int {
    var apparent := if r.date.Date? then Max(0, Signed64(r.received - r.date.epoch)) else 0;
    var receivedAge := match r.age
      case NoAge => apparent
      case BadAge => Max(apparent, -1)
      case Age(sec) => Max(apparent, sec);
    var responseDuration := Signed64(r.received - r.sent);
    var residentDuration := Signed64(Unsigned64(now - r.received));
    Unsigned64(Signed64(Signed64(receivedAge + responseDuration) + residentDuration))
  }

  function Fresh64(r: Stored): int {
    if Directives(r.control).maxAge != -1 then Unsigned64(Directives(r.control).maxAge)
    else if r.expires.Date? then
      Max(0, Signed64(r.expires.epoch - if r.date.Date? then r.date.epoch else r.received))
    else if r.lastModified.Date? && !r.hasQuery then
      Max(0, Signed64((if r.date.Date? then r.date.epoch else r.sent) - r.lastModified.epoch)) / 10
    else 0
  }

  function Limit64(q: CacheControl, r: Stored): int {
    if q.maxAge != -1 then Min(Fresh64(r), Unsigned64(q.maxAge)) else Fresh64(r)
  }

  function MinFresh64(q: CacheControl): int {
    if q.minFresh != -1 then Unsigned64(q.minFresh) else 0
  }

  function MaxStale64(q: CacheControl, r: Stored): int {
    if !Directives(r.control).mustRevalidate && q.maxStale != -1 then Unsigned64(q.maxStale) else 0
  }

  predicate Serves64(q: CacheControl, r: Stored, now: int) {
    && !Directives(r.control).noCache
    && Unsigned64(Age64(r, now) + MinFresh64(q)) < Unsigned64(Limit64(q, r) + MaxStale64(q, r))
  }

  // ---- over the integers ----

  /** The age on arrival: what the Date and Age headers say, whichever is more. */
  function ReceivedAge(r: Stored): int {
    Max(if r.date.Date? then Max(0, r.received - r.date.epoch) else 0, if r.age.Age? then r.age.sec else 0)
  }

  function CurrentAge(r: Stored, now: int): int {
    ReceivedAge(r) + now - r.sent
  }

  /** max-age, else Expires minus Date, else a tenth of the time since the last modification, else nothing. */
  function Lifetime(r: Stored): int {
    if Directives(r.control).maxAge != -1 then Directives(r.control).maxAge
    else if r.expires.Date? then Max(0, r.expires.epoch - if r.date.Date? then r.date.epoch else r.received)
    else if r.lastModified.Date? && !r.hasQuery then
      Max(0, (if r.date.Date? then r.date.epoch else r.sent) - r.lastModified.epoch) / 10
    else 0
  }

  function Limit(q: CacheControl, r: Stored): int {
    if q.maxAge != -1 then Min(Lifetime(r), q.maxAge) else Lifetime(r)
  }

  function MinFresh(q: CacheControl): int {
    if q.minFresh != -1 then q.minFresh else 0
  }

  function MaxStale(q: CacheControl, r: Stored): int {
    if !Directives(r.control).mustRevalidate && q.maxStale != -1 then q.maxStale else 0
  }

  /** The first second at which the stored response may no longer answer the request. */
  function Expiry(q: CacheControl, r: Stored): int {
    Limit(q, r) + MaxStale(q, r) - MinFresh(q) - ReceivedAge(r) + r.sent
  }

  predicate Serves(q: CacheControl, r: Stored, now: int) {
    !Directives(r.control).noCache && now < Expiry(q, r)
  }

  // ---- the decision ----

  /** The header that asks the server whether the stored response is still current, if one can be made. */
  function Condition(r: Stored): Option<(string, string)> {
    if r.etag.Some? then Some(("If-None-Match", r.etag.value))
    else if !r.lastModified.NoHeader? then Some(("If-Modified-Since", r.lastModified.text))
    else if !r.date.NoHeader? then Some(("If-Modified-Since", r.date.text))
    else None
  }

  function Warnings64(q: CacheControl, r: Stored, now: int): seq<string> {
    (if Unsigned64(Age64(r, now) + MinFresh64(q)) >= Limit64(q, r) then [RESPONSE_IS_STALE] else [])
    + (if Age64(r, now) > ONE_DAY_SEC && Directives(r.control).maxAge == -1 && !r.expires.Date?
       then [HEURISTIC_EXPIRATION] else [])
  }

  /** The decision of the program for a request with directives `q` at time `now`. */
  function Decide(q: CacheControl, stored: Option<Stored>, now: int): Decision {
    if stored.None? then Decision(if q.onlyIfCached then NoRequest else Send(None), None)
    else if Serves64(q, stored.value, now) then Decision(NoRequest, Some(Warnings64(q, stored.value, now)))
    else if q.onlyIfCached then Decision(NoRequest, None)
    else Decision(Send(Condition(stored.value)), if Condition(stored.value).Some? then Some([]) else None)
  }

  // ---- properties ----

  predicate Epoch(t: int) {
    -MAX_EPOCH <= t <= MAX_EPOCH
  }

  predicate GoodDate(s: Stamp) {
    s.Date? ==> Epoch(s.epoch)
  }

  predicate GoodDirective(d: int) {
    -1 <= d <= MAX64
  }

  /** Directives are absent or non-negative, times are those of a clock and in order, and the age fits a word. */
  predicate Regular(q: CacheControl, r: Stored, now: int) {
    && GoodDirective(q.maxAge) && GoodDirective(q.maxStale) && GoodDirective(q.minFresh)
    && GoodDirective(Directives(r.control).maxAge)
    && GoodDate(r.date) && GoodDate(r.lastModified) && GoodDate(r.expires)
    && 0 <= r.sent <= r.received <= now && Epoch(r.received)
    && CurrentAge(r, now) <= MAX64
  }

  lemma SignedIsPlain(x: int)
    requires -MAX64 - 1 <= x <= MAX64
    ensures Signed64(x) == x
  {
  }

  lemma UnsignedIsPlain(x: int)
    requires 0 <= x < TWO64
    ensures Unsigned64(x) == x
  {
  }

  lemma AgeIsPlain(q: CacheControl, r: Stored, now: int)
    requires Regular(q, r, now)
    ensures Age64(r, now) == CurrentAge(r, now) && 0 <= CurrentAge(r, now)
  {
    if r.date.Date? {
      SignedIsPlain(r.received - r.date.epoch);
    }
    SignedIsPlain(r.received - r.sent);
    UnsignedIsPlain(now - r.received);
    SignedIsPlain(now - r.received);
    SignedIsPlain(ReceivedAge(r) + (r.received - r.sent));
    SignedIsPlain(CurrentAge(r, now));
    UnsignedIsPlain(CurrentAge(r, now));
  }

  lemma FreshIsPlain(q: CacheControl, r: Stored, now: int)
    requires Regular(q, r, now)
    ensures Fresh64(r) == Lifetime(r) && 0 <= Lifetime(r) <= MAX64
  {
    if Directives(r.control).maxAge != -1 {
      UnsignedIsPlain(Directives(r.control).maxAge);
    } else if r.expires.Date? {
      SignedIsPlain(r.expires.epoch - if r.date.Date? then r.date.epoch else r.received);
    } else if r.lastModified.Date? {
      SignedIsPlain((if r.date.Date? then r.date.epoch else r.sent) - r.lastModified.epoch);
    }
  }

  /** No 64-bit sum wraps: the tests in words are the tests over the integers. */
  lemma WordsAreIntegers(q: CacheControl, r: Stored, now: int)
    requires Regular(q, r, now)
    ensures Age64(r, now) == CurrentAge(r, now)
    ensures Limit64(q, r) == Limit(q, r)
    ensures Unsigned64(Age64(r, now) + MinFresh64(q)) == CurrentAge(r, now) + MinFresh(q)
    ensures Serves64(q, r, now) <==> Serves(q, r, now)
  {
    AgeIsPlain(q, r, now);
    FreshIsPlain(q, r, now);
    if q.maxAge != -1 {
      UnsignedIsPlain(q.maxAge);
    }
    if q.minFresh != -1 {
      UnsignedIsPlain(q.minFresh);
    }
    if q.maxStale != -1 {
      UnsignedIsPlain(q.maxStale);
    }
    UnsignedIsPlain(CurrentAge(r, now) + MinFresh(q));
    UnsignedIsPlain(Limit(q, r) + MaxStale(q, r));
  }

  predicate Served(d: Decision) {
    d.network.NoRequest? && d.cached.Some?
  }

  /**
   A stored response answers a request exactly while the time is before its expiry and it is not no-cache: so once
   it has stopped answering, it never does again.
   */
  lemma ServedUntilExpiry(q: CacheControl, r: Stored, now: int, later: int)
    requires now <= later && Regular(q, r, now) && Regular(q, r, later)
    ensures Served(Decide(q, Some(r), now)) <==> !Directives(r.control).noCache && now < Expiry(q, r)
    ensures Served(Decide(q, Some(r), later)) ==> Served(Decide(q, Some(r), now))
  {
    WordsAreIntegers(q, r, now);
    WordsAreIntegers(q, r, later);
  }

  /** There is neither a request nor a response exactly when only the cache may answer and it cannot. */
  lemma NeitherIff(q: CacheControl, stored: Option<Stored>, now: int)
    requires stored.Some? ==> Regular(q, stored.value, now)
    ensures var d := Decide(q, stored, now);
            d.network.NoRequest? && d.cached.None? <==>
              q.onlyIfCached && (stored.None? || !Serves(q, stored.value, now))
  {
    if stored.Some? {
      WordsAreIntegers(q, stored.value, now);
    }
  }

  /**
   A response served beyond its lifetime carries warning 110, and only such a one does; it takes a max-stale the
   server has not ruled out. Warning 113 marks one over a day old whose lifetime was guessed.
   */
  lemma WarnedIff(q: CacheControl, r: Stored, now: int)
    requires Regular(q, r, now) && Serves(q, r, now)
    ensures Served(Decide(q, Some(r), now))
    ensures var w := Decide(q, Some(r), now).cached.value;
            && (RESPONSE_IS_STALE in w <==> CurrentAge(r, now) + MinFresh(q) >= Limit(q, r))
            && (RESPONSE_IS_STALE in w ==> q.maxStale != -1 && !Directives(r.control).mustRevalidate)
            && (HEURISTIC_EXPIRATION in w <==>
                 CurrentAge(r, now) > 86400 && Directives(r.control).maxAge == -1 && !r.expires.Date?)
            && |w| <= 2
  {
    WordsAreIntegers(q, r, now);
    assert RESPONSE_IS_STALE[2] == '0' && HEURISTIC_EXPIRATION[2] == '3';
  }

  /**
   The condition of a request that goes out while a stored response is kept: If-None-Match with the stored entity tag if
   there is one, and only without one If-Modified-Since, with the stored Last-Modified text or else the Date text. When
   no stored response is kept there is no condition.
   */
  lemma ConditionOfKept(q: CacheControl, stored: Option<Stored>, now: int)
    ensures var d := Decide(q, stored, now);
            d.network.Send? ==>
              && (d.network.condition.Some? <==> d.cached.Some?)
              && (d.cached.Some? ==> stored.Some? && d.cached == Some([]))
              && (d.cached.Some? && stored.value.etag.Some? ==>
                    d.network.condition == Some(("If-None-Match", stored.value.etag.value)))
              && (d.cached.Some? && stored.value.etag.None? && !stored.value.lastModified.NoHeader? ==>
                    d.network.condition == Some(("If-Modified-Since", stored.value.lastModified.text)))
              && (d.cached.Some? && stored.value.etag.None? && stored.value.lastModified.NoHeader? ==>
                    !stored.value.date.NoHeader?
                    && d.network.condition == Some(("If-Modified-Since", stored.value.date.text)))
  {
  }

  /**
   A request that goes out while a stored response is kept always carries a condition made from that response, the
   entity tag before the dates; the stored response is dropped exactly when none can be made.
   */
  lemma KeptIffConditional(q: CacheControl, r: Stored, now: int)
    requires Regular(q, r, now)
    ensures var d := Decide(q, Some(r), now);
            && (d.network.Send? <==> !Serves(q, r, now) && !q.onlyIfCached)
            && (d.network.Send? ==> (d.cached.Some? <==> d.network.condition.Some?))
            && (d.network.Send? ==> (d.cached.None? <==>
                 r.etag.None? && r.lastModified.NoHeader? && r.date.NoHeader?))
            && (d.network.Send? && r.etag.Some? ==>
                 d.network.condition == Some(("If-None-Match", r.etag.value)))
            && (d.network.Send? && r.etag.None? && d.cached.Some? ==>
                 d.network.condition == Some(("If-Modified-Since",
                   if r.lastModified.NoHeader? then r.date.text else r.lastModified.text)))
  {
    WordsAreIntegers(q, r, now);
  }
}
