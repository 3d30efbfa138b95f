/**
 What a revalidation does to the stored response: the refresh that follows a status 304, what later look-ups find, and
 until when the cache then answers.
 */
module Revalidation {
  import opened Options
  import opened Text
  import opened HeaderMergeSpec
  import opened CacheSpec
  import opened FileCacheSpec
  import opened FileCacheRuns
  import opened FileCacheAgreement
  import opened CacheContents
  import opened CacheDecisionSpec
  import Redirects = RedirectSpec
  import Users = UserResponseSpec

  // ---- the refresh ----

  function Refreshed(meta: Metadata, headers: Fields, sent: int, received: int): Metadata {
    meta.(headers := headers, sent := sent, received := received)
  }

  /** The row is read again, its headers and times are replaced, and it is written back; false if any of that fails. */
  function Refresh(st: State, k: string, headers: Fields, sent: int, received: int, reading: Outcome, writing: Outcome,
                   maxSize: nat): (State, bool)
  {
    var (st1, got) := Step(st, GetMetadata(k), reading, maxSize);
    if !got.ok || got.meta.None? then (st1, false)
    else
      var (st2, put) := Step(st1, PutMetadata(k, Refreshed(got.meta.value, headers, sent, received)), writing, maxSize);
      (st2, put.ok)
  }

  /**
   The refresh takes place exactly when nobody is reading the stored body and no removal of it is due, and both
   statements work; otherwise the old headers and times stay, and only the last access may be stamped.
   */
  lemma RefreshIff(st: State, k: string, headers: Fields, sent: int, received: int, reading: Outcome, writing: Outcome,
                   maxSize: nat, strict: bool)
    requires st.ready && Agrees(st.cache, maxSize, strict)
    ensures var (st', ok) := Refresh(st, k, headers, sent, received, reading, writing, maxSize);
            var was, now := At(st.cache, k), At(st'.cache, k);
            && (ok <==> was.entry.Some? && !was.entry.value.reserved && was.entry.value.refs == 0
                        && reading.selects && reading.touches && writing.writes)
            && (ok ==> was.row.Some? && now == was.(row :=
                         Some(Row(Refreshed(was.row.value.meta, headers, sent, received), writing.now))))
            && (!ok ==> NothingNew(was, now) && (was.row.Some? ==> now.row.Some?))
            && (forall j :: j != k ==> At(st'.cache, j) == At(st.cache, j))
  {
    var c := st.cache;
    var (c1, got) := DoGetMetadata(c, reading, k);
    assert SlotOk(k, At(c, k), strict);
    GetMetadataEffect(c, reading, maxSize, k);
    GetKeeps(c, k);
    assert At(CacheSpec.Get(c, ACCEPT, k).0, k) == At(c, k);
    if got.ok {
      var meta := Refreshed(got.meta.value, headers, sent, received);
      GetKeeps(c1, k);
      assert At(CacheSpec.Get(c1, ACCEPT, k).0, k) == At(c1, k);
      PutMetadataEffect(c1, writing, maxSize, k, meta);
    }
  }

  // ---- what the headers say ----

  /** How the texts of headers are understood; a date that is none has no second. */
  datatype Readers = Readers(date: string -> Option<int>, age: string -> AgeHeader,
                             control: (seq<string>, seq<string>) -> Option<CacheControl>)

  function StampOf(r: Readers, headers: Fields, name: string): Stamp {
    if ValuesOf(headers, name) == [] then NoHeader
    else
      var text := ValuesOf(headers, name)[0];
      if r.date(text).Some? then Date(text, r.date(text).value) else BadDate(text)
  }

  /** A stored response as the cache decision sees it. */
  function FactsOf(r: Readers, meta: Metadata, hasQuery: bool): Stored {
    var age, etag := ValuesOf(meta.headers, "Age"), ValuesOf(meta.headers, "ETag");
    Stored(meta.sent, meta.received,
           StampOf(r, meta.headers, "Date"), StampOf(r, meta.headers, "Last-Modified"),
           StampOf(r, meta.headers, "Expires"),
           if age == [] then NoAge else r.age(age[0]),
           if etag == [] then None else Some(etag[0]),
           hasQuery,
           r.control(ValuesOf(meta.headers, "Cache-Control"), ValuesOf(meta.headers, "Pragma")))
  }

  predicate Decides(name: string) {
    name in ["Date", "Last-Modified", "Expires", "Age", "ETag", "Cache-Control", "Pragma"]
  }

  lemma Different(a: string, b: string)
    requires |a| != |b| || (a != [] && Lower(a)[0] != Lower(b)[0])
    ensures !Same(a, b)
  {
    assert |Lower(a)| == |a| && |Lower(b)| == |b|;
  }

  lemma DecidingNames(name: string)
    requires Decides(name)
    ensures EndToEnd(name) && !Same(name, "Content-Length") && !Same(name, "Warning")
  {
    Different(name, "Connection");
    Different(name, "Keep-Alive");
    Different(name, "Proxy-Authenticate");
    Different(name, "Proxy-Authorization");
    Different(name, "TE");
    Different(name, "Trailers");
    Different(name, "Transfer-Encoding");
    Different(name, "Upgrade");
    Different(name, "Content-Length");
    Different(name, "Warning");
  }

  /** Each header that the decision depends on is the one of the confirming response, or else the stored one. */
  lemma MergedFact(cached: Fields, network: Fields, name: string)
    requires Decides(name)
    ensures ValuesOf(Merge(cached, network), name)
         == if Has(network, name) then ValuesOf(network, name) else ValuesOf(cached, name)
  {
    DecidingNames(name);
    MergedValues(cached, network, name);
  }

  // ---- until when the cache answers ----

  /**
   The revalidation theorem. After a refresh, and whatever calls follow that store nothing for the key, a look-up that
   succeeds finds the refreshed metadata, and the cache answers with it until the expiry computed from them.
   */
  lemma RevalidatedServes(st: State, k: string, headers: Fields, sent: int, received: int, reading: Outcome,
                          writing: Outcome, rs: seq<Request>, o: Outcome, maxSize: nat, strict: bool,
                          r: Readers, hasQuery: bool, q: CacheControl, now: int)
    requires Consistent(st, maxSize, strict)
    requires Refresh(st, k, headers, sent, received, reading, writing, maxSize).1
    requires var meta := Step(st, GetMetadata(k), reading, maxSize).1.meta.value;
             var put := Request(PutMetadata(k, Refreshed(meta, headers, sent, received)), writing);
             BenignRun(st, [Request(GetMetadata(k), reading), put] + rs, maxSize, strict)
    requires var st' := Refresh(st, k, headers, sent, received, reading, writing, maxSize).0;
             && NoneStored(st', rs, maxSize, k)
             && Benign(After(st', rs, maxSize), GetMetadata(k), o, maxSize, strict)
    ensures var meta := Step(st, GetMetadata(k), reading, maxSize).1.meta.value;
            var st' := Refresh(st, k, headers, sent, received, reading, writing, maxSize).0;
            var reply := Step(After(st', rs, maxSize), GetMetadata(k), o, maxSize).1;
            reply.ok ==>
              && reply.meta == Some(Refreshed(meta, headers, sent, received))
              && var facts := FactsOf(r, reply.meta.value, hasQuery);
                 Regular(q, facts, now) ==>
                   (Served(Decide(q, Some(facts), now)) <==>
                      !Directives(facts.control).noCache && now < Expiry(q, facts))
  {
    var (st1, got) := Step(st, GetMetadata(k), reading, maxSize);
    var meta := Refreshed(got.meta.value, headers, sent, received);
    var put := Request(PutMetadata(k, meta), writing);
    var (st2, stored) := Step(st1, put.call, put.o, maxSize);
    KnownAfterRefresh(st, Request(GetMetadata(k), reading), put, rs, maxSize, strict, k);
    ReadsLatest(st, [Request(GetMetadata(k), reading), put] + rs, GetMetadata(k), o, maxSize, strict);
    var reply := Step(After(st2, rs, maxSize), GetMetadata(k), o, maxSize).1;
    if reply.ok {
      var facts := FactsOf(r, meta, hasQuery);
      if Regular(q, facts, now) {
        ServedUntilExpiry(q, facts, now, now);
      }
    }
  }

  lemma KnownAfterRefresh(st: State, get: Request, put: Request, rs: seq<Request>, maxSize: nat, strict: bool,
                          k: string)
    requires Consistent(st, maxSize, strict) && get.call == GetMetadata(k) && put.call.PutMetadata? && put.call.key == k
    requires BenignRun(st, [get, put] + rs, maxSize, strict)
    requires var (st1, got) := Step(st, get.call, get.o, maxSize);
             var (st2, stored) := Step(st1, put.call, put.o, maxSize);
             got.ok && stored.ok && NoneStored(st2, rs, maxSize, k)
    ensures var st2 := Step(Step(st, get.call, get.o, maxSize).0, put.call, put.o, maxSize).0;
            var all := [get, put] + rs;
            && After(st, all, maxSize) == After(st2, rs, maxSize)
            && var known := KnownAt(LearnedBy(Found(st.cache.disk), st, all, maxSize), k);
               known.Some? && known.value.meta == put.call.meta
  {
    var all := [get, put] + rs;
    var found := Found(st.cache.disk);
    var (st1, got) := Step(st, get.call, get.o, maxSize);
    var (st2, stored) := Step(st1, put.call, put.o, maxSize);
    assert all[0] == get && all[1..] == [put] + rs && all[1..][0] == put && all[1..][1..] == rs;
    FoundTells(st, maxSize, strict);
    StepTells(st, get.call, get.o, maxSize, found, strict);
    assert k in found;
    NoneStoredKnown(st2, rs, maxSize, Learned(found, put.call, stored), k);
  }

  /**
   An Age header outlives the revalidation if the confirming response has none: however old that makes the response, it
   stays as old. One that reaches its lifetime with max-stale is then never served, and every request for it goes out.
   */
  lemma OldAgeStays(r: Readers, meta: Metadata, network: Fields, sent: int, received: int, hasQuery: bool,
                    q: CacheControl, now: int)
    requires !Has(network, "Age") && ValuesOf(meta.headers, "Age") != []
    requires r.age(ValuesOf(meta.headers, "Age")[0]).Age?
    requires var facts := FactsOf(r, Refreshed(meta, Merge(meta.headers, network), sent, received), hasQuery);
             && Regular(q, facts, now)
             && r.age(ValuesOf(meta.headers, "Age")[0]).sec >= Limit(q, facts) + MaxStale(q, facts)
    ensures var facts := FactsOf(r, Refreshed(meta, Merge(meta.headers, network), sent, received), hasQuery);
            !Served(Decide(q, Some(facts), now))
  {
    MergedFact(meta.headers, network, "Age");
    var facts := FactsOf(r, Refreshed(meta, Merge(meta.headers, network), sent, received), hasQuery);
    ServedUntilExpiry(q, facts, now, now);
  }

  // ---- what the server is asked ----

  function First(values: seq<string>): seq<string> {
    if values == [] then [] else [values[0]]
  }

  lemma ConditionNamesDiffer()
    ensures !Same("If-None-Match", "If-Modified-Since")
  {
    Different("If-None-Match", "If-Modified-Since");
  }

  /**
   When a stored response is kept and the server is asked, the request that goes out carries the stored entity tag as
   If-None-Match, or, if there is none, the stored Last-Modified or else Date header as If-Modified-Since, as its only
   such value; everything else is as the caller made it. When none is kept the request is the caller's.
   */
  lemma AskedWithStored(hasCache: bool, q: Redirects.Request, wishes: Users.Wishes, e: Users.Met, r: Readers,
                        meta: Metadata, hasQuery: bool, name: string)
    requires e.stored.Some? && e.stored.value.headers == meta.headers
    requires e.stored.value.facts == FactsOf(r, meta, hasQuery)
    requires Users.Plan(hasCache, q, wishes, e).network.Send?
    ensures var plan := Users.Plan(hasCache, q, wishes, e);
            var sent := Users.Sent(q, plan.network);
            && (plan.cached.None? ==> sent == q)
            && sent.url == q.url && sent.verb == q.verb
            && (!Same("If-None-Match", name) && !Same("If-Modified-Since", name) ==>
                  ValuesOf(sent.headers, name) == ValuesOf(q.headers, name))
            && (plan.cached.Some? ==>
                  && ValuesOf(sent.headers, "If-None-Match") == First(ValuesOf(meta.headers, "ETag"))
                  && ValuesOf(sent.headers, "If-Modified-Since") ==
                     if ValuesOf(meta.headers, "ETag") != [] then []
                     else if ValuesOf(meta.headers, "Last-Modified") != [] then
                       First(ValuesOf(meta.headers, "Last-Modified"))
                     else First(ValuesOf(meta.headers, "Date")))
  {
    var plan := Users.Plan(hasCache, q, wishes, e);
    ConditionOfKept(Directives(wishes.control), Users.Facts(e.stored), e.now);
    ConditionNamesDiffer();
    if plan.cached.Some? {
      var f := Field(plan.network.condition.value.0, plan.network.condition.value.1);
      InsertNew(q.headers, f);
      HasSnoc(q.headers, f, name);
      HasSnoc(q.headers, f, "If-None-Match");
      HasSnoc(q.headers, f, "If-Modified-Since");
      HasIffValues(q.headers, "If-None-Match");
      HasIffValues(q.headers, "If-Modified-Since");
    }
  }
}
