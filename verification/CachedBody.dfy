/** From the network to the next reader: a body that was received, offered, and put into the cache is served. */
module CachedBody {
  import opened Options
  import Bodies = BodyStreamSpec
  import opened CacheSpec
  import opened FileCacheSpec
  import opened FileCacheAgreement

  /**
   However the body was read, and whatever was evicted for it: if every read kept its bytes and the cache accepted the
   file, a later read from the cache yields, byte for byte and with the size that was recorded, all that was received.
   That is the whole body, unless the network sent more than the declared length.
   */
  lemma ReceivedIsServed(body: Body, tries: seq<Bodies.Try>, length: Option<int>, c: Cache, o: Outcome, maxSize: nat,
                         k: string, meta: Metadata, later: Outcome)
    requires Bodies.Kept(Bodies.Fresh(body, true), tries)
    requires Bodies.Offers(Bodies.Run(Bodies.Fresh(body, true), tries), length)
    requires Agrees(c, maxSize, false) && DeletionsSucceed(o.faults) && later.opens
    requires var s := Bodies.Run(Bodies.Fresh(body, true), tries);
             && s.file.Some? && meta.key == k && meta.bodySize == s.written
             && DoPut(c, o, maxSize, k, meta, s.file.value).1.ok
    ensures var s := Bodies.Run(Bodies.Fresh(body, true), tries);
            var c' := DoPut(c, o, maxSize, k, meta, s.file.value).0;
            && DoGetData(c', later, maxSize, k).1 == Reply(true, None, Some(s.received))
            && meta.bodySize == |s.received|
            && (!Bodies.Declared(length) || |body| <= length.value ==> s.received == body)
  {
    var s := Bodies.Run(Bodies.Fresh(body, true), tries);
    Bodies.RunFresh(body, tries);
    PutThenGet(c, o, maxSize, k, meta, s.received, later.(selects := true, touches := true));
    var c' := DoPut(c, o, maxSize, k, meta, s.received).0;
    assert DoGetData(c', later.(selects := true, touches := true), maxSize, k).1
        == DoGetData(c', later, maxSize, k).1;
  }
}
