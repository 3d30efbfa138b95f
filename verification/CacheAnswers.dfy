/** When the calls of an initialized file cache succeed. */
module CacheAnswers {
  import opened Options
  import opened LruList
  import opened CacheSpec
  import opened FileCacheSpec
  import opened FileCacheRuns

  /** There is an entry, and its removal is not due. */
  predicate Usable(s: Slot) {
    s.entry.Some? && !s.entry.value.reserved
  }

  /**
   Metadata are found exactly for an entry that is not due for removal and whose row can be read and stamped, and data
   exactly if its file can be opened; looking up both needs both.
   */
  lemma LookUpIff(c: Cache, o: Outcome, maxSize: nat, k: string)
    requires Unique(c.lru)
    ensures var s := At(c, k);
            && (DoGetMetadata(c, o, k).1.ok <==> Usable(s) && s.row.Some? && o.selects && o.touches)
            && (DoGetData(c, o, maxSize, k).1.ok <==> Usable(s) && s.body.Some? && o.opens)
            && (DoGet(c, o, maxSize, k).1.ok <==>
                  Usable(s) && s.row.Some? && o.selects && o.touches && s.body.Some? && o.opens)
  {
    GetKeeps(c, k);
    var c1 := CacheSpec.Get(c, ACCEPT, k).0;
    assert At(c1, k) == At(c, k);
    ReadRowKeeps(c1, o, k);
    assert At(ReadRow(c1, o, k).0, k).body == At(c, k).body;
  }

  lemma PutMetadataIff(c: Cache, o: Outcome, k: string, meta: Metadata)
    requires Unique(c.lru)
    ensures var s := At(c, k);
            DoPutMetadata(c, o, k, meta).1.ok <==> Usable(s) && s.entry.value.refs == 0 && o.writes
  {
    GetKeeps(c, k);
  }

  /** Displacing an entry that nobody reads leaves the bytes of those being read. */
  lemma DisplaceKeepsPinned(c: Cache, o: Outcome, k: string)
    requires Unique(c.lru) && Displace(c, o, k).1
    ensures PinnedBytes(Displace(c, o, k).0.lru) == PinnedBytes(c.lru)
  {
    GetKeeps(c, k);
    var (c1, found) := CacheSpec.Get(c, ACCEPT, k);
    assert At(c1, k) == At(c, k);
    if found.Some? {
      BytesWithout(c.lru, k);
      assert c1.lru == [found.value] + Without(c.lru, k) && c1.lru[1..] == Without(c.lru, k);
      BytesWithout(c1.lru, k);
    }
  }

  /**
   A `put` succeeds exactly if nobody reads what it replaces and no removal of that is due, the new body fits beside
   what is being read, and it can be moved in and its row be written.
   */
  lemma PutIff(c: Cache, o: Outcome, maxSize: nat, k: string, meta: Metadata, body: Body)
    requires Unique(c.lru)
    ensures var s := At(c, k);
            DoPut(c, o, maxSize, k, meta, body).1.ok <==>
              && (s.entry.None? || (Usable(s) && s.entry.value.refs == 0))
              && PinnedBytes(c.lru) + meta.bodySize <= maxSize && o.moves && o.writes
  {
    GetKeeps(c, k);
    var (c1, free) := Displace(c, o, k);
    if free {
      DisplaceKeepsPinned(c, o, k);
      MakeSpaceIff(c1, o.faults, ACCEPT, maxSize, meta.bodySize, "");
    }
  }
}
