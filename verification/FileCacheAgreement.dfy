/**
 Index, metadata table and body files agree after every public call, also when a body cannot be moved in or its
 row cannot be written; the byte bound; and deferred removal.
 */
module FileCacheAgreement {
  import opened Options
  import opened LruList
  import opened CacheSpec
  import opened FileCacheSpec
  import opened FileCacheRuns

  /**
   For key `k` index, table and files hold nothing at all, or an entry, a row and a body of one and the same size.
   `strict` adds that an entry due for removal is being read, which needs deletions of rows to work as well.
   */
  predicate SlotOk(k: string, s: Slot, strict: bool) {
    s == GONE
    || (&& s.entry.Some? && s.row.Some? && s.body.Some?
        && s.entry.value.key == s.row.value.meta.key == k
        && s.entry.value.size == s.row.value.meta.bodySize == |s.body.value|
        && (strict && s.entry.value.reserved ==> s.entry.value.refs > 0))
  }

  /** A row and its body, which are in the index already, unread, or not yet. */
  predicate Listed(k: string, s: Slot, maxSize: nat) {
    && s.row.Some? && s.body.Some?
    && s.row.value.meta.key == k && s.row.value.meta.bodySize == |s.body.value| <= maxSize
    && (s.entry.Some? ==> s.entry.value == Entry(k, |s.body.value|, false, 0))
  }

  ghost predicate Agrees(c: Cache, maxSize: nat, strict: bool) {
    && Unique(c.lru)
    && (forall k :: SlotOk(k, At(c, k), strict))
    && (strict ==> Bytes(c.lru) <= maxSize)
  }

  /** Before the index has been rebuilt, or when that was given up halfway. */
  ghost predicate Unready(c: Cache, maxSize: nat, strict: bool) {
    && Unique(c.lru)
    && (forall k :: At(c, k) == GONE || Listed(k, At(c, k), maxSize))
    && (strict ==> Bytes(c.lru) <= maxSize)
  }

  ghost predicate Consistent(st: State, maxSize: nat, strict: bool) {
    if st.ready then Agrees(st.cache, maxSize, strict) else Unready(st.cache, maxSize, strict)
  }

  /** Making space for `size` bytes evicts none of these. */
  predicate Spares(c: Cache, maxSize: nat, size: nat, order: seq<string>) {
    var need := Bytes(c.lru) + size - maxSize;
    need <= 0 || Victims(c.lru, need) == None
    || forall i | 0 <= i < |Victims(c.lru, need).value| :: Victims(c.lru, need).value[i] !in order
  }

  /**
   No row of a listing is evicted before it is reached: neither when space is made for a row, nor when it is entered,
   which makes space once more. On an empty index this is always so (`FirstListing`).
   */
  predicate Lists(c: Cache, f: Faults, maxSize: nat, rows: map<string, Row>, order: seq<string>)
    decreases |order|
  {
    order == []
    || (var k, size := order[0], StoredSize(rows, order[0]);
        var c1 := MakeSpace(c, f, ACCEPT, maxSize, size, "").0;
        && Spares(c, maxSize, size, order)
        && (k in Index(c1.lru) || Spares(c1, maxSize, size, order))
        && Lists(OnEnumerate(c, f, maxSize, k, size), f, maxSize, rows, order[1..]))
  }

  /**
   What the caller and the environment owe one call: metadata for the key it is given with, and with the size of
   the body it describes; a table listed in order, which evicts no row that is still to be listed; files that can be
   deleted. A `put` also needs the row it replaces to be deletable, and so does everything once `strict`.
   */
  ghost predicate Benign(st: State, call: Call, o: Outcome, maxSize: nat, strict: bool) {
    && FileDeletionsSucceed(o.faults)
    && (strict || call.Put? ==> DeletionsSucceed(o.faults))
    && (!st.ready && o.directory && !call.ReleaseData? ==>
          && InOrder(st.cache.disk.rows, o.order)
          && Lists(st.cache, o.faults, maxSize, st.cache.disk.rows, Listing(o)))
    && (call.PutMetadata? ==>
          && call.meta.key == call.key
          && (call.key in st.cache.disk.rows ==> call.meta.bodySize == st.cache.disk.rows[call.key].meta.bodySize))
    && (call.Put? ==> call.meta.key == call.key && call.meta.bodySize == |call.body|)
  }

  lemma BackedRows(c: Cache, maxSize: nat, strict: bool)
    requires Agrees(c, maxSize, strict)
    ensures forall k :: k in Index(c.lru) ==> k in c.disk.rows
  {
    forall k | k in Index(c.lru) ensures k in c.disk.rows {
      assert SlotOk(k, At(c, k), strict);
    }
  }

  lemma MakeSpaceAgrees(c: Cache, f: Faults, maxSize: nat, request: nat, strict: bool)
    requires Agrees(c, maxSize, strict) && FileDeletionsSucceed(f) && (strict ==> DeletionsSucceed(f))
    ensures var (c', ok) := MakeSpace(c, f, ACCEPT, maxSize, request, "");
            && Agrees(c', maxSize, strict)
            && (forall k :: At(c, k).entry == None ==> At(c', k) == At(c, k))
  {
    var (c', ok) := MakeSpace(c, f, ACCEPT, maxSize, request, "");
    BackedRows(c, maxSize, strict);
    MakeSpaceEffect(c, f, ACCEPT, maxSize, request, "");
    MakeSpaceIff(c, f, ACCEPT, maxSize, request, "");
    forall k ensures SlotOk(k, At(c', k), strict) {
      assert SlotOk(k, At(c, k), strict);
      assert At(c', k) == At(c, k) || At(c', k) == GONE;
    }
    if strict && ok {
      MakeSpaceRoom(c, f, ACCEPT, maxSize, request, "");
    }
  }

  /** Entering a body whose file and row are already in place. */
  lemma EnterAgrees(c: Cache, f: Faults, maxSize: nat, e: Entry, strict: bool)
    requires Unique(c.lru) && FileDeletionsSucceed(f) && (strict ==> DeletionsSucceed(f))
    requires e.key !in Index(c.lru) && !e.reserved
    requires SlotOk(e.key, At(c, e.key).(entry := Some(e)), strict)
    requires forall k :: k != e.key ==> SlotOk(k, At(c, k), strict)
    requires strict ==> Bytes(c.lru) <= maxSize
    requires PinnedBytes(c.lru) + e.size <= maxSize
    ensures var (c', ok) := AddOrUpdate(c, f, ACCEPT, maxSize, e);
            ok && Agrees(c', maxSize, strict)
  {
    var (c', ok) := AddOrUpdate(c, f, ACCEPT, maxSize, e);
    MakeSpaceIff(c, f, ACCEPT, maxSize, e.size, "");
    AddOrUpdateEffect(c, f, ACCEPT, maxSize, e);
    forall k ensures SlotOk(k, At(c', k), strict) {
      if k != e.key {
        assert SlotOk(k, At(c, k), strict);
        assert At(c', k) == At(c, k) || At(c', k) == GONE;
      }
    }
    if strict {
      forall k | k in Index(c.lru) ensures k in c.disk.rows {
        assert SlotOk(k, At(c, k), strict);
      }
      AddOrUpdateBound(c, f, ACCEPT, maxSize, e);
    }
  }

  lemma {:induction false} NothingPinned(s: seq<Entry>)
    requires Unique(s) && forall k :: k in Index(s) ==> Index(s)[k].refs == 0
    ensures PinnedBytes(s) == 0
  {
    if s != [] {
      IndexAt(s, 0);
      UniqueHead(s);
      forall k | k in Index(s[1..]) ensures Index(s[1..])[k].refs == 0 {
        assert Index(s)[k] == Index(s[1..])[k];
      }
      NothingPinned(s[1..]);
    }
  }

  /**
   During start-up: the rows still to be listed are there, in the index or not; what has been listed is in the index, or
   is gone. Unless `full`, rows that are not going to be listed this time may still wait for it.
   */
  ghost predicate Loading(c: Cache, maxSize: nat, rows: map<string, Row>, order: seq<string>,
                          strict: bool, full: bool)
  {
    && Unique(c.lru)
    && (forall i, j :: 0 <= i < j < |order| ==> order[i] != order[j])
    && (forall k :: k in order ==> Listed(k, At(c, k), maxSize) && k in rows && At(c, k).row == Some(rows[k]))
    && (forall k :: k !in order ==>
          At(c, k) == GONE || (Listed(k, At(c, k), maxSize) && (full ==> At(c, k).entry.Some?)))
    && (strict ==> Bytes(c.lru) <= maxSize)
  }

  lemma LoadingUnpinned(c: Cache, maxSize: nat, rows: map<string, Row>, order: seq<string>, strict: bool, full: bool)
    requires Loading(c, maxSize, rows, order, strict, full)
    ensures PinnedBytes(c.lru) == 0
    ensures forall k :: k in Index(c.lru) ==> k in c.disk.rows
    ensures forall k :: RefsOf(At(c, k)) == 0
  {
    forall k ensures RefsOf(At(c, k)) == 0 && (k in Index(c.lru) ==> k in c.disk.rows && Index(c.lru)[k].refs == 0) {
      assert At(c, k) == GONE || Listed(k, At(c, k), maxSize);
    }
    NothingPinned(c.lru);
  }

  /** What the scan does not take stays. */
  lemma SparedStay(c: Cache, f: Faults, maxSize: nat, size: nat, order: seq<string>)
    requires Unique(c.lru) && Spares(c, maxSize, size, order)
    ensures var c1 := MakeSpace(c, f, ACCEPT, maxSize, size, "").0;
            forall k | k in order :: At(c1, k) == At(c, k)
  {
    var need := Bytes(c.lru) + size - maxSize;
    if need > 0 && Victims(c.lru, need).Some? {
      var ks := Victims(c.lru, need).value;
      VictimsEvictable(c, need);
      EvictAllEffect(c, f, ACCEPT, ks, "");
      forall k | k in order ensures k !in ToSet(ks) {
        assert k !in ks;
      }
    }
  }

  lemma SpaceLoading(c: Cache, f: Faults, maxSize: nat, rows: map<string, Row>, order: seq<string>, size: nat,
                     strict: bool, full: bool)
    requires FileDeletionsSucceed(f) && (strict ==> DeletionsSucceed(f))
    requires Loading(c, maxSize, rows, order, strict, full) && size <= maxSize && Spares(c, maxSize, size, order)
    ensures var (c1, ok) := MakeSpace(c, f, ACCEPT, maxSize, size, "");
            && ok && Loading(c1, maxSize, rows, order, strict, full)
            && (DeletionsSucceed(f) ==> Bytes(c1.lru) + size <= maxSize)
  {
    var c1 := MakeSpace(c, f, ACCEPT, maxSize, size, "").0;
    LoadingUnpinned(c, maxSize, rows, order, strict, full);
    MakeSpaceIff(c, f, ACCEPT, maxSize, size, "");
    MakeSpaceEffect(c, f, ACCEPT, maxSize, size, "");
    SparedStay(c, f, maxSize, size, order);
    if DeletionsSucceed(f) {
      MakeSpaceRoom(c, f, ACCEPT, maxSize, size, "");
    }
    forall k | k !in order
      ensures At(c1, k) == GONE || (Listed(k, At(c1, k), maxSize) && (full ==> At(c1, k).entry.Some?)) {
      assert At(c1, k) == At(c, k) || At(c1, k) == GONE;
    }
  }

  /** The row that is reached goes to the front of the index, where it may be already. */
  lemma FrontLoading(c: Cache, maxSize: nat, rows: map<string, Row>, order: seq<string>, strict: bool, full: bool)
    requires Loading(c, maxSize, rows, order, strict, full) && order != []
    requires strict ==> order[0] in Index(c.lru) || Bytes(c.lru) + StoredSize(rows, order[0]) <= maxSize
    ensures var e := Entry(order[0], StoredSize(rows, order[0]), false, 0);
            Loading(c.(lru := ToFront(c.lru, e)), maxSize, rows, order[1..], strict, full)
  {
    var k0 := order[0];
    var e := Entry(k0, StoredSize(rows, k0), false, 0);
    var c1 := c.(lru := ToFront(c.lru, e));
    assert Listed(k0, At(c, k0), maxSize);
    UniqueToFront(c.lru, e);
    IndexToFront(c.lru, e);
    BytesWithout(c.lru, k0);
    assert c1.lru[1..] == Without(c.lru, k0);
    forall k | k in order[1..] ensures k in order && k != k0 && At(c1, k) == At(c, k) {
    }
    forall k | k !in order[1..]
      ensures At(c1, k) == GONE || (Listed(k, At(c1, k), maxSize) && (full ==> At(c1, k).entry.Some?)) {
      assert k != k0 ==> At(c1, k) == At(c, k) && k !in order;
    }
  }

  lemma EnumerateLoading(c: Cache, f: Faults, maxSize: nat, rows: map<string, Row>, order: seq<string>,
                         strict: bool, full: bool)
    requires FileDeletionsSucceed(f) && (strict ==> DeletionsSucceed(f))
    requires Loading(c, maxSize, rows, order, strict, full) && order != [] && Lists(c, f, maxSize, rows, order)
    ensures var c1 := OnEnumerate(c, f, maxSize, order[0], StoredSize(rows, order[0]));
            Loading(c1, maxSize, rows, order[1..], strict, full)
  {
    var k, size := order[0], StoredSize(rows, order[0]);
    var c1 := MakeSpace(c, f, ACCEPT, maxSize, size, "").0;
    assert Listed(k, At(c, k), maxSize);
    SpaceLoading(c, f, maxSize, rows, order, size, strict, full);
    assert Listed(k, At(c1, k), maxSize);
    if k !in Index(c1.lru) {
      SpaceLoading(c1, f, maxSize, rows, order, size, strict, full);
    }
    FrontLoading(RoomFor(c1, f, ACCEPT, maxSize, k, size).0, maxSize, rows, order, strict, full);
  }

  lemma {:induction false} LoadKeeps(c: Cache, f: Faults, maxSize: nat, rows: map<string, Row>, order: seq<string>,
                                     strict: bool, full: bool)
    requires FileDeletionsSucceed(f) && (strict ==> DeletionsSucceed(f))
    requires Loading(c, maxSize, rows, order, strict, full) && Lists(c, f, maxSize, rows, order)
    ensures Loading(Load(c, f, maxSize, rows, order), maxSize, rows, [], strict, full)
    decreases |order|
  {
    if order != [] {
      EnumerateLoading(c, f, maxSize, rows, order, strict, full);
      var c1 := OnEnumerate(c, f, maxSize, order[0], StoredSize(rows, order[0]));
      LoadKeeps(c1, f, maxSize, rows, order[1..], strict, full);
    }
  }

  /** A complete listing that evicts none of its own rows too early leaves index, table and files in agreement. */
  lemma LoadAgrees(c: Cache, f: Faults, maxSize: nat, rows: map<string, Row>, order: seq<string>, strict: bool)
    requires FileDeletionsSucceed(f) && (strict ==> DeletionsSucceed(f))
    requires Loading(c, maxSize, rows, order, strict, true) && Lists(c, f, maxSize, rows, order)
    ensures Agrees(Load(c, f, maxSize, rows, order), maxSize, strict)
  {
    LoadKeeps(c, f, maxSize, rows, order, strict, true);
    var c' := Load(c, f, maxSize, rows, order);
    forall k ensures SlotOk(k, At(c', k), strict) {
      assert At(c', k) == GONE || Listed(k, At(c', k), maxSize);
    }
  }

  /** The first listing, on an index that knows none of the rows, never evicts a row that is still to be listed. */
  lemma {:induction false} FirstListing(c: Cache, f: Faults, maxSize: nat, rows: map<string, Row>, order: seq<string>)
    requires Unique(c.lru) && forall k | k in order :: At(c, k).entry == None
    requires forall i, j :: 0 <= i < j < |order| ==> order[i] != order[j]
    ensures Lists(c, f, maxSize, rows, order)
    decreases |order|
  {
    if order != [] {
      var k, size := order[0], StoredSize(rows, order[0]);
      var c1 := MakeSpace(c, f, ACCEPT, maxSize, size, "").0;
      var c2 := OnEnumerate(c, f, maxSize, k, size);
      UnknownSpared(c, maxSize, size, order);
      MakeSpaceEffect(c, f, ACCEPT, maxSize, size, "");
      forall j | j in order ensures At(c1, j).entry == None {
        assert At(c1, j) == At(c, j);
      }
      UnknownSpared(c1, maxSize, size, order);
      AddOrUpdateEffect(c1, f, ACCEPT, maxSize, Entry(k, size, false, 0));
      forall j | j in order[1..] ensures At(c2, j).entry == None {
        assert At(c, j).entry == None && At(c1, j).entry == None;
      }
      FirstListing(c2, f, maxSize, rows, order[1..]);
    }
  }

  lemma UnknownSpared(c: Cache, maxSize: nat, size: nat, order: seq<string>)
    requires Unique(c.lru) && forall k | k in order :: At(c, k).entry == None
    ensures Spares(c, maxSize, size, order)
  {
    var need := Bytes(c.lru) + size - maxSize;
    if Victims(c.lru, need).Some? {
      VictimsUnpinned(c.lru, need);
    }
  }

  // ---- a listing that starts over ----

  /** An entry without row, which no removal can get rid of. */
  predicate Phantom(c: Cache, k: string) {
    k in Index(c.lru) && k !in c.disk.rows
  }

  lemma {:induction false} EvictionsRefused(c: Cache, f: Faults, ks: seq<string>, updatedKey: string, v: string)
    requires Unique(c.lru) && Evictable(c, ks) && Phantom(c, v)
    ensures Phantom(EvictAll(c, f, ACCEPT, ks, updatedKey), v)
    decreases |ks|
  {
    if ks != [] {
      var c1 := if Spared(updatedKey, ks[0]) then c else CacheSpec.Remove(c, f, ACCEPT, ks[0]).0;
      EvictOne(c, f, ACCEPT, ks, updatedKey);
      if ks[0] != v {
        assert At(c1, v) == At(c, v);
      }
      EvictionsRefused(c1, f, ks[1..], updatedKey, v);
    }
  }

  lemma SpacePhantom(c: Cache, f: Faults, maxSize: nat, size: nat, updatedKey: string, v: string)
    requires Unique(c.lru) && Phantom(c, v)
    ensures var c1 := MakeSpace(c, f, ACCEPT, maxSize, size, updatedKey).0;
            Unique(c1.lru) && Phantom(c1, v)
  {
    MakeSpaceEffect(c, f, ACCEPT, maxSize, size, updatedKey);
    var need := Bytes(c.lru) + size - maxSize;
    if need > 0 && Victims(c.lru, need).Some? {
      VictimsEvictable(c, need);
      EvictionsRefused(c, f, Victims(c.lru, need).value, updatedKey, v);
    }
  }

  lemma EnumeratePhantom(c: Cache, f: Faults, maxSize: nat, k: string, size: nat, v: string)
    requires Unique(c.lru) && Phantom(c, v) && k != v
    ensures var c1 := OnEnumerate(c, f, maxSize, k, size);
            Unique(c1.lru) && Phantom(c1, v)
  {
    var e := Entry(k, size, false, 0);
    SpacePhantom(c, f, maxSize, size, "", v);
    var c1 := MakeSpace(c, f, ACCEPT, maxSize, size, "").0;
    SpacePhantom(c1, f, maxSize, size, if k in Index(c1.lru) then k else "", v);
    var roomy := RoomFor(c1, f, ACCEPT, maxSize, k, size).0;
    UniqueToFront(roomy.lru, e);
    IndexToFront(roomy.lru, e);
  }

  lemma {:induction false} PhantomStays(c: Cache, f: Faults, maxSize: nat, rows: map<string, Row>, order: seq<string>,
                                        v: string)
    requires Unique(c.lru) && Phantom(c, v) && v !in order
    ensures Phantom(Load(c, f, maxSize, rows, order), v)
    decreases |order|
  {
    if order != [] {
      var c1 := OnEnumerate(c, f, maxSize, order[0], StoredSize(rows, order[0]));
      EnumeratePhantom(c, f, maxSize, order[0], StoredSize(rows, order[0]), v);
      PhantomStays(c1, f, maxSize, rows, order[1..], v);
    }
  }

  /** Listing a row makes no reader, and enters it whatever has become of row and body, if it can fit at all. */
  lemma EnumerateEnters(c: Cache, f: Faults, maxSize: nat, k: string, size: nat)
    requires Unique(c.lru) && forall j :: RefsOf(At(c, j)) == 0
    ensures var c1 := OnEnumerate(c, f, maxSize, k, size);
            && Unique(c1.lru) && (forall j :: RefsOf(At(c1, j)) == 0)
            && (forall j :: j != k && At(c, j) == GONE ==> At(c1, j) == GONE)
            && (At(c, k) == GONE && size <= maxSize ==> Phantom(c1, k))
  {
    var rows := map[k := Row(Metadata(k, size, 200, [], 0, 0), 0)];
    LoadEffect(c, f, maxSize, rows, [k]);
    assert Load(c, f, maxSize, rows, [k]) == Load(OnEnumerate(c, f, maxSize, k, size), f, maxSize, rows, []);
    var c1 := MakeSpace(c, f, ACCEPT, maxSize, size, "").0;
    MakeSpaceEffect(c, f, ACCEPT, maxSize, size, "");
    AddOrUpdateEffect(c1, f, ACCEPT, maxSize, Entry(k, size, false, 0));
    forall j | j in Index(c.lru) ensures Index(c.lru)[j].refs == 0 {
      assert RefsOf(At(c, j)) == 0;
    }
    NothingPinned(c.lru);
    MakeSpaceIff(c, f, ACCEPT, maxSize, size, "");
    MakeSpacePinned(c, f, maxSize, size);
    MakeSpaceIff(c1, f, ACCEPT, maxSize, size, "");
  }

  /** A row that is lost before it is reached leaves an entry without row. */
  lemma {:induction false} LostThenListed(c: Cache, f: Faults, maxSize: nat, rows: map<string, Row>, order: seq<string>,
                                          v: string)
    requires Unique(c.lru) && forall j :: RefsOf(At(c, j)) == 0
    requires At(c, v) == GONE && v in order && StoredSize(rows, v) <= maxSize
    requires forall i, j :: 0 <= i < j < |order| ==> order[i] != order[j]
    ensures Phantom(Load(c, f, maxSize, rows, order), v)
    decreases |order|
  {
    var c1 := OnEnumerate(c, f, maxSize, order[0], StoredSize(rows, order[0]));
    EnumerateEnters(c, f, maxSize, order[0], StoredSize(rows, order[0]));
    if order[0] == v {
      PhantomStays(c1, f, maxSize, rows, order[1..], v);
    } else {
      LostThenListed(c1, f, maxSize, rows, order[1..], v);
    }
  }

  /**
   A listing, the first or one that starts over after another failed halfway, leaves index, table and files in agreement
   exactly when it evicts none of its rows before they are reached.
   */
  lemma {:induction false} ListingAgreesIff(c: Cache, f: Faults, maxSize: nat, rows: map<string, Row>,
                                            order: seq<string>)
    requires DeletionsSucceed(f) && Loading(c, maxSize, rows, order, false, true)
    ensures Agrees(Load(c, f, maxSize, rows, order), maxSize, false) <==> Lists(c, f, maxSize, rows, order)
    decreases |order|
  {
    if order == [] {
      LoadAgrees(c, f, maxSize, rows, order, false);
    } else {
      var k, size := order[0], StoredSize(rows, order[0]);
      assert Listed(k, At(c, k), maxSize);
      if Spares(c, maxSize, size, order) {
        SpaceLoading(c, f, maxSize, rows, order, size, false, true);
        EnumerateSpared(c, f, maxSize, rows, order);
        ListingAgreesIff(OnEnumerate(c, f, maxSize, k, size), f, maxSize, rows, order[1..]);
      } else {
        var v := EvictedTooEarly(c, f, maxSize, rows, order);
        assert !SlotOk(v, At(Load(c, f, maxSize, rows, order), v), false);
      }
    }
  }

  /** With working deletions the space made for a row is there when it is entered. */
  lemma EnumerateSpared(c: Cache, f: Faults, maxSize: nat, rows: map<string, Row>, order: seq<string>)
    requires DeletionsSucceed(f) && Loading(c, maxSize, rows, order, false, true) && order != []
    requires Spares(c, maxSize, StoredSize(rows, order[0]), order)
    ensures var size := StoredSize(rows, order[0]);
            && Loading(OnEnumerate(c, f, maxSize, order[0], size), maxSize, rows, order[1..], false, true)
            && Spares(MakeSpace(c, f, ACCEPT, maxSize, size, "").0, maxSize, size, order)
  {
    var k, size := order[0], StoredSize(rows, order[0]);
    assert Listed(k, At(c, k), maxSize);
    SpaceLoading(c, f, maxSize, rows, order, size, false, true);
    var c1 := MakeSpace(c, f, ACCEPT, maxSize, size, "").0;
    assert Listed(k, At(c1, k), maxSize);
    FrontLoading(RoomFor(c1, f, ACCEPT, maxSize, k, size).0, maxSize, rows, order, false, true);
  }

  lemma EvictedTooEarly(c: Cache, f: Faults, maxSize: nat, rows: map<string, Row>, order: seq<string>)
    returns (v: string)
    requires DeletionsSucceed(f) && Loading(c, maxSize, rows, order, false, true) && order != []
    requires !Spares(c, maxSize, StoredSize(rows, order[0]), order)
    ensures Phantom(Load(c, f, maxSize, rows, order), v)
  {
    var k, size := order[0], StoredSize(rows, order[0]);
    v := VictimListed(c, f, maxSize, rows, order, size);
    var c1 := MakeSpace(c, f, ACCEPT, maxSize, size, "").0;
    assert Listed(k, At(c, k), maxSize) && Listed(v, At(c, v), maxSize);
    EnumerateEnters(c1, f, maxSize, k, size);
    var c2 := OnEnumerate(c, f, maxSize, k, size);
    if v == k {
      PhantomStays(c2, f, maxSize, rows, order[1..], v);
    } else {
      LostThenListed(c2, f, maxSize, rows, order[1..], v);
    }
  }

  /** A listed row that is among the victims loses row and body; the space made is not made again. */
  lemma VictimListed(c: Cache, f: Faults, maxSize: nat, rows: map<string, Row>, order: seq<string>, size: nat)
    returns (v: string)
    requires DeletionsSucceed(f) && Loading(c, maxSize, rows, order, false, true) && order != []
    requires !Spares(c, maxSize, size, order)
    ensures var c1 := MakeSpace(c, f, ACCEPT, maxSize, size, "").0;
            && v in order && At(c1, v) == GONE && Unique(c1.lru) && (forall j :: RefsOf(At(c1, j)) == 0)
            && OnEnumerate(c1, f, maxSize, order[0], size) == OnEnumerate(c, f, maxSize, order[0], size)
  {
    LoadingUnpinned(c, maxSize, rows, order, false, true);
    var need := Bytes(c.lru) + size - maxSize;
    var ks := Victims(c.lru, need).value;
    var i :| 0 <= i < |ks| && ks[i] in order;
    v := ks[i];
    var c1 := MakeSpace(c, f, ACCEPT, maxSize, size, "").0;
    MakeSpaceGives(c, f, ACCEPT, maxSize, size);
    MakeSpaceEffect(c, f, ACCEPT, maxSize, size, "");
    assert Listed(v, At(c, v), maxSize);
    assert v in ToSet(ks) && At(c1, v).row == None;
    assert Cleared(At(c, v), At(c1, v));
    forall j ensures RefsOf(At(c1, j)) == 0 {
      assert RefsOf(At(c, j)) == 0;
    }
    MakeSpaceRoom(c, f, ACCEPT, maxSize, size, "");
    MadeTwice(c1, f, maxSize, size);
  }

  /** Space that is there is not made again. */
  lemma MadeTwice(c: Cache, f: Faults, maxSize: nat, size: nat)
    requires Bytes(c.lru) + size <= maxSize
    ensures MakeSpace(c, f, ACCEPT, maxSize, size, "") == (c, true)
  {
  }

  /**
   When a listing fails halfway the next one starts over, and comes to rows that are in the index already. Listing such
   a row again keeps the agreement exactly when making space for it, as if it were new, does not evict the row itself;
   otherwise an entry without row and body is left. The empty key is left out because making space takes it for no key.
   */
  lemma ListedAgainAgreesIff(c: Cache, f: Faults, maxSize: nat, k: string)
    requires Agrees(c, maxSize, false) && DeletionsSucceed(f) && k in Index(c.lru) && k != ""
    ensures var size := Index(c.lru)[k].size;
            var c' := OnEnumerate(c, f, maxSize, k, size);
            var victims := Victims(c.lru, Bytes(c.lru) + size - maxSize);
            && (Agrees(c', maxSize, false) <==>
                  Bytes(c.lru) + size <= maxSize || victims == None || k !in victims.value)
            && (!Agrees(c', maxSize, false) ==> At(c', k) == GONE.(entry := Some(Entry(k, size, false, 0))))
  {
    var size := Index(c.lru)[k].size;
    var (c1, ok) := MakeSpace(c, f, ACCEPT, maxSize, size, "");
    assert SlotOk(k, At(c, k), false);
    MakeSpaceIff(c, f, ACCEPT, maxSize, size, "");
    MakeSpaceAgrees(c, f, maxSize, size, false);
    if ok {
      VictimsGone(c, f, maxSize, size, k);
      MakeSpacePinned(c, f, maxSize, size);
      EnteredAgain(c1, f, maxSize, k, size);
    }
  }

  lemma VictimsGone(c: Cache, f: Faults, maxSize: nat, size: nat, k: string)
    requires Agrees(c, maxSize, false) && DeletionsSucceed(f) && k in Index(c.lru)
    requires MakeSpace(c, f, ACCEPT, maxSize, size, "").1
    ensures var victims := Victims(c.lru, Bytes(c.lru) + size - maxSize);
            var c1 := MakeSpace(c, f, ACCEPT, maxSize, size, "").0;
            At(c1, k) == if Bytes(c.lru) + size > maxSize && victims.Some? && k in victims.value then GONE else At(c, k)
  {
    if Bytes(c.lru) + size > maxSize {
      MakeSpaceEffect(c, f, ACCEPT, maxSize, size, "");
      BackedRows(c, maxSize, false);
      MakeSpaceGives(c, f, ACCEPT, maxSize, size);
      var gone := ToSet(Victims(c.lru, Bytes(c.lru) + size - maxSize).value);
      assert k in gone <==> k in Victims(c.lru, Bytes(c.lru) + size - maxSize).value;
    }
  }

  lemma EnteredAgain(c: Cache, f: Faults, maxSize: nat, k: string, size: nat)
    requires Agrees(c, maxSize, false) && DeletionsSucceed(f) && k != "" && PinnedBytes(c.lru) + size <= maxSize
    requires k in Index(c.lru) ==> Index(c.lru)[k].size == size
    ensures var c' := AddOrUpdate(c, f, ACCEPT, maxSize, Entry(k, size, false, 0)).0;
            && (Agrees(c', maxSize, false) <==> At(c, k) != GONE)
            && (At(c, k) == GONE ==> At(c', k) == GONE.(entry := Some(Entry(k, size, false, 0))))
  {
    var e := Entry(k, size, false, 0);
    var c' := AddOrUpdate(c, f, ACCEPT, maxSize, e).0;
    AddOrUpdateEffect(c, f, ACCEPT, maxSize, e);
    MakeSpaceIff(c, f, ACCEPT, maxSize, size, "");
    assert SlotOk(k, At(c, k), false);
    assert At(c', k) == At(c, k).(entry := Some(e));
    if At(c, k) == GONE {
      assert !SlotOk(k, At(c', k), false);
    } else {
      forall j ensures SlotOk(j, At(c', j), false) {
        assert SlotOk(j, At(c, j), false);
      }
    }
  }

  /** The smallest case: one row of six bytes in a cache of ten, listed twice. */
  lemma ListedAgainFails(body: Body, f: Faults)
    requires |body| == 6 && DeletionsSucceed(f)
    ensures var row := Row(Metadata("k", 6, 200, [], 0, 0), 0);
            var c := Cache([Entry("k", 6, false, 0)], Disk(map["k" := row], map["k" := body], 0));
            Agrees(c, 10, true) && !Agrees(OnEnumerate(c, f, 10, "k", 6), 10, false)
  {
    var kept := [Entry("k", 6, false, 0)];
    var c := Cache(kept, Disk(map["k" := Row(Metadata("k", 6, 200, [], 0, 0), 0)], map["k" := body], 0));
    assert kept[1..] == [] && kept[..0] == [];
    assert Bytes(kept) == 6 && Index(kept) == map["k" := kept[0]];
    forall j ensures SlotOk(j, At(c, j), true) {
    }
    assert Victims(kept, 2) == Some([] + ["k"]);
    ListedAgainAgreesIff(c, f, 10, "k");
  }

  lemma InitializeAgrees(st: State, o: Outcome, maxSize: nat, strict: bool)
    requires Consistent(st, maxSize, strict)
    requires FileDeletionsSucceed(o.faults) && (strict ==> DeletionsSucceed(o.faults))
    requires !st.ready && o.directory ==>
               && InOrder(st.cache.disk.rows, o.order)
               && Lists(st.cache, o.faults, maxSize, st.cache.disk.rows, Listing(o))
    ensures var (st', ok) := Initialize(st, o, maxSize);
            && Consistent(st', maxSize, strict)
            && (forall k :: OnlyLost(At(st.cache, k), At(st'.cache, k)))
  {
    if !st.ready && o.directory {
      var c, order := st.cache, Listing(o);
      var rows := c.disk.rows;
      forall k ensures if k in order then Listed(k, At(c, k), maxSize) && k in rows && At(c, k).row == Some(rows[k])
                       else At(c, k) == GONE || (Listed(k, At(c, k), maxSize) && !o.loads) {
        assert At(c, k) == GONE || Listed(k, At(c, k), maxSize);
        assert k in order ==> k in o.order;
      }
      LoadKeeps(c, o.faults, maxSize, rows, order, strict, o.loads);
      if o.loads {
        LoadAgrees(c, o.faults, maxSize, rows, order, strict);
      }
      LoadOnlyLoses(c, o.faults, maxSize, rows, order);
    }
  }

  /** On an index that has not been rebuilt: what is there stays, rows may be stamped or replaced, or it goes. */
  predicate Dimmed(was: Slot, now: Slot) {
    now == GONE
    || (&& now.entry == was.entry && now.body == was.body && (now.row.Some? <==> was.row.Some?)
        && (now.row.Some? ==>
              && now.row.value.meta.key == was.row.value.meta.key
              && now.row.value.meta.bodySize == was.row.value.meta.bodySize))
  }

  lemma UnreadyKeeps(c: Cache, call: Call, o: Outcome, maxSize: nat, strict: bool)
    requires Unready(c, maxSize, strict) && Benign(State(true, c), call, o, maxSize, strict)
    ensures Unready(Do(c, call, Reach(o, false), maxSize).0, maxSize, strict)
  {
    var c' := Do(c, call, Reach(o, false), maxSize).0;
    UnreadyDims(c, call, o, maxSize, strict);
    assert forall k :: Dimmed(At(c, k), At(c', k));
    forall k ensures At(c', k) == GONE || Listed(k, At(c', k), maxSize) {
      assert At(c, k) == GONE || Listed(k, At(c, k), maxSize);
      assert Dimmed(At(c, k), At(c', k));
    }
  }

  /** A call on such an index leaves it one. */
  ghost predicate Dims(c: Cache, c': Cache) {
    Unique(c'.lru) && Bytes(c'.lru) <= Bytes(c.lru) && forall k :: Dimmed(At(c, k), At(c', k))
  }

  lemma UnreadyDims(c: Cache, call: Call, o: Outcome, maxSize: nat, strict: bool)
    requires Unready(c, maxSize, strict) && Benign(State(true, c), call, o, maxSize, strict)
    ensures Dims(c, Do(c, call, Reach(o, false), maxSize).0)
  {
    forall k ensures RefsOf(At(c, k)) == 0 && (At(c, k).entry.Some? ==> At(c, k).row.Some?) {
      assert At(c, k) == GONE || Listed(k, At(c, k), maxSize);
    }
    if call.GetMetadata? || call.GetData? || call.Get? {
      LookupDims(c, call, Reach(o, false), maxSize);
    } else {
      if call.PutMetadata? {
        assert At(c, call.key) == GONE || Listed(call.key, At(c, call.key), maxSize);
      }
      ChangeDims(c, call, Reach(o, false), maxSize);
    }
  }

  lemma LookupDims(c: Cache, call: Call, o: Outcome, maxSize: nat)
    requires Unique(c.lru) && (call.GetMetadata? || call.GetData? || call.Get?) && !o.opens
    ensures Dims(c, Do(c, call, o, maxSize).0)
  {
    match call
    case GetMetadata(k) => GetMetadataEffect(c, o, maxSize, k);
    case GetData(k) => GetDataEffect(c, o, maxSize, k);
    case Get(k) => GetEffect(c, o, maxSize, k);
  }

  lemma ChangeDims(c: Cache, call: Call, o: Outcome, maxSize: nat)
    requires Unique(c.lru) && !call.GetMetadata? && !call.GetData? && !call.Get?
    requires FileDeletionsSucceed(o.faults) && !o.moves && !o.losesTarget && !o.dropsTable
    requires forall k :: RefsOf(At(c, k)) == 0 && (At(c, k).entry.Some? ==> At(c, k).row.Some?)
    requires call.PutMetadata? ==>
               && call.meta.key == call.key
               && (call.key in c.disk.rows ==>
                     && call.meta.bodySize == c.disk.rows[call.key].meta.bodySize
                     && c.disk.rows[call.key].meta.key == call.key)
    ensures Dims(c, Do(c, call, o, maxSize).0)
  {
    match call
    case PutMetadata(k, meta) => PutMetadataEffect(c, o, maxSize, k, meta);
    case Put(k, meta, body) => UnreadyPut(c, o, maxSize, k, meta, body);
    case Remove(k) => RemoveKeeps(c, o.faults, k);
    case ReleaseData(k) => ReleaseEffect(c, o, maxSize, k);
    case Purge(busy) => ClearEffect(c, o.faults, busy);
  }

  lemma UnreadyPut(c: Cache, o: Outcome, maxSize: nat, k: string, meta: Metadata, body: Body)
    requires Unique(c.lru) && FileDeletionsSucceed(o.faults) && !o.moves && !o.losesTarget
    ensures var c' := DoPut(c, o, maxSize, k, meta, body).0;
            && Unique(c'.lru) && Bytes(c'.lru) <= Bytes(c.lru)
            && forall j :: At(c', j) == At(c, j) || At(c', j) == GONE
  {
    var (c1, free) := Displace(c, o, k);
    DisplaceKeeps(c, o, k);
    if free {
      MakeSpaceEffect(c1, o.faults, ACCEPT, maxSize, meta.bodySize, "");
      MakeSpaceBytes(c1, o.faults, ACCEPT, maxSize, meta.bodySize, "");
    }
  }

  /** Nothing new: the row and the body are the ones that were there, or gone. */
  predicate OnlyLost(was: Slot, now: Slot) {
    (now.row == was.row || now.row == None) && (now.body == was.body || now.body == None)
  }

  /** Start-up only ever deletes. */
  lemma {:induction false} LoadOnlyLoses(c: Cache, f: Faults, maxSize: nat, rows: map<string, Row>, order: seq<string>)
    requires Unique(c.lru)
    ensures var c' := Load(c, f, maxSize, rows, order);
            Unique(c'.lru) && forall k :: OnlyLost(At(c, k), At(c', k))
    decreases |order|
  {
    if order != [] {
      var e := Entry(order[0], StoredSize(rows, order[0]), false, 0);
      var c1 := MakeSpace(c, f, ACCEPT, maxSize, e.size, "").0;
      var c2 := OnEnumerate(c, f, maxSize, order[0], e.size);
      MakeSpaceEffect(c, f, ACCEPT, maxSize, e.size, "");
      forall k ensures OnlyLost(At(c, k), At(c1, k)) {
      }
      AddOrUpdateOnlyLoses(c1, f, maxSize, e);
      LoadOnlyLoses(c2, f, maxSize, rows, order[1..]);
      forall k ensures OnlyLost(At(c, k), At(c2, k)) {
        assert c2 != c ==> OnlyLost(At(c1, k), At(c2, k));
      }
    }
  }

  lemma AddOrUpdateOnlyLoses(c: Cache, f: Faults, maxSize: nat, e: Entry)
    requires Unique(c.lru)
    ensures var c' := AddOrUpdate(c, f, ACCEPT, maxSize, e).0;
            Unique(c'.lru) && forall k :: OnlyLost(At(c, k), At(c', k))
  {
    AddOrUpdateEffect(c, f, ACCEPT, maxSize, e);
    var updated := if e.key in Index(c.lru) then e.key else "";
    MakeSpaceEffect(c, f, ACCEPT, maxSize, e.size, updated);
    var roomy := MakeSpace(c, f, ACCEPT, maxSize, e.size, updated).0;
    forall k ensures OnlyLost(At(c, k), At(roomy, k)) {
    }
  }

  lemma StoreAgrees(c: Cache, o: Outcome, maxSize: nat, k: string, meta: Metadata, body: Body, strict: bool)
    requires Agrees(c, maxSize, strict) && FileDeletionsSucceed(o.faults) && (strict ==> DeletionsSucceed(o.faults))
    requires At(c, k) == GONE && meta.key == k && meta.bodySize == |body|
    requires PinnedBytes(c.lru) + meta.bodySize <= maxSize
    ensures var (c', reply) := Store(c, o, maxSize, k, meta, body);
            && Agrees(c', maxSize, strict)
            && (reply.ok <==> o.moves && o.writes)
            && (reply.ok ==> At(c', k) == Slot(Some(Entry(k, |body|, false, 0)), Some(Row(meta, o.now)), Some(body)))
            && (!reply.ok ==> At(c', k) == GONE)
  {
    var (c', reply) := Store(c, o, maxSize, k, meta, body);
    if o.moves && o.writes {
      var c1 := WithRow(WithFile(c, k, body), meta, o.now);
      var e := Entry(k, meta.bodySize, false, 0);
      assert At(c1, k) == Slot(None, Some(Row(meta, o.now)), Some(body));
      forall j | j != k ensures SlotOk(j, At(c1, j), strict) {
        assert At(c1, j) == At(c, j);
      }
      EnterAgrees(c1, o.faults, maxSize, e, strict);
      AddOrUpdateEffect(c1, o.faults, ACCEPT, maxSize, e);
    } else {
      forall j ensures At(c', j) == At(c, j) {
      }
    }
  }

  lemma PutAgrees(c: Cache, o: Outcome, maxSize: nat, k: string, meta: Metadata, body: Body, strict: bool)
    requires Agrees(c, maxSize, strict) && DeletionsSucceed(o.faults)
    requires meta.key == k && meta.bodySize == |body|
    ensures Agrees(DoPut(c, o, maxSize, k, meta, body).0, maxSize, strict)
    ensures var (c', reply) := DoPut(c, o, maxSize, k, meta, body);
            reply.ok ==> At(c', k) == Slot(Some(Entry(k, |body|, false, 0)), Some(Row(meta, o.now)), Some(body))
  {
    var (c1, free) := Displace(c, o, k);
    DisplaceKeeps(c, o, k);
    BackedRows(c, maxSize, strict);
    forall j ensures SlotOk(j, At(c1, j), strict) {
      assert SlotOk(j, At(c, j), strict);
    }
    if free {
      MakeSpaceAgrees(c1, o.faults, maxSize, meta.bodySize, strict);
      MakeSpaceIff(c1, o.faults, ACCEPT, maxSize, meta.bodySize, "");
      MakeSpaceEffect(c1, o.faults, ACCEPT, maxSize, meta.bodySize, "");
      var (c2, roomy) := MakeSpace(c1, o.faults, ACCEPT, maxSize, meta.bodySize, "");
      if roomy {
        assert At(c1, k) == GONE;
        assert At(c2, k) == GONE;
        MakeSpacePinned(c1, o.faults, maxSize, meta.bodySize);
        StoreAgrees(c2, o, maxSize, k, meta, body, strict);
      }
    }
  }

  /** What was put is what is got: the metadata and the body, whatever else had to be evicted for them. */
  lemma PutThenGet(c: Cache, o: Outcome, maxSize: nat, k: string, meta: Metadata, body: Body, later: Outcome)
    requires Agrees(c, maxSize, false) && DeletionsSucceed(o.faults) && meta.key == k && meta.bodySize == |body|
    requires DoPut(c, o, maxSize, k, meta, body).1.ok
    requires later.selects && later.touches && later.opens
    ensures var c' := DoPut(c, o, maxSize, k, meta, body).0;
            && DoGet(c', later, maxSize, k).1 == Reply(true, Some(meta), Some(body))
            && DoGetMetadata(c', later, k).1 == Reply(true, Some(meta), None)
            && DoGetData(c', later, maxSize, k).1 == Reply(true, None, Some(body))
  {
    var c' := DoPut(c, o, maxSize, k, meta, body).0;
    PutAgrees(c, o, maxSize, k, meta, body, false);
    GetKeeps(c', k);
    assert At(CacheSpec.Get(c', ACCEPT, k).0, k) == At(c', k);
  }

  /**
   Exactly when a `put` keeps the agreement, whatever row deletions are refused: it is turned away (`free`, `roomy`), or
   what was there before is gone by the time the body is moved in, or body and row are both stored, or the move fails
   and leaves the old body. In every other case the old entry and row are left without a body. The empty key is left
   out because making space takes it for no key.
   */
  lemma PutAgreesIff(c: Cache, o: Outcome, maxSize: nat, k: string, meta: Metadata, body: Body)
    requires Agrees(c, maxSize, false) && FileDeletionsSucceed(o.faults)
    requires k != "" && meta.key == k && meta.bodySize == |body|
    ensures var (c1, free) := Displace(c, o, k);
            var (c2, roomy) := MakeSpace(c1, o.faults, ACCEPT, maxSize, |body|, "");
            var c' := DoPut(c, o, maxSize, k, meta, body).0;
            && (free <==> k !in Index(c.lru) || (Index(c.lru)[k].refs == 0 && !Index(c.lru)[k].reserved))
            && (free ==> (roomy <==> PinnedBytes(c.lru) + |body| <= maxSize))
            && (free && (k !in Index(c.lru) || o.faults.rowDeleted(c.disk.deletions)) ==> At(c2, k) == GONE)
            && (Agrees(c', maxSize, false) <==>
                  !free || !roomy || At(c2, k) == GONE || if o.moves then o.writes else !o.losesTarget)
            && (!Agrees(c', maxSize, false) ==>
                  At(c', k).entry.Some? && At(c', k).row.Some? && At(c', k).body == None)
  {
    var (c1, free) := Displace(c, o, k);
    var (c2, roomy) := MakeSpace(c1, o.faults, ACCEPT, maxSize, |body|, "");
    DisplaceKeeps(c, o, k);
    DisplacePinned(c, o, k);
    BackedRows(c, maxSize, false);
    forall j ensures SlotOk(j, At(c1, j), false) {
      assert SlotOk(j, At(c, j), false);
    }
    MakeSpaceAgrees(c1, o.faults, maxSize, |body|, false);
    MakeSpaceIff(c1, o.faults, ACCEPT, maxSize, |body|, "");
    if free && (k !in Index(c.lru) || o.faults.rowDeleted(c.disk.deletions)) {
      assert SlotOk(k, At(c, k), false);
      assert At(c1, k).entry == None && SlotOk(k, At(c1, k), false);
    }
    if free && roomy {
      MakeSpacePinned(c1, o.faults, maxSize, |body|);
      if At(c2, k) == GONE {
        StoreAgrees(c2, o, maxSize, k, meta, body, false);
      } else {
        MakeSpaceEffect(c1, o.faults, ACCEPT, maxSize, |body|, "");
        StoreOverAgreesIff(c2, o, maxSize, k, meta, body);
      }
    }
  }

  lemma DisplacePinned(c: Cache, o: Outcome, k: string)
    requires Unique(c.lru)
    ensures var (c1, free) := Displace(c, o, k);
            && (free <==> k !in Index(c.lru) || (Index(c.lru)[k].refs == 0 && !Index(c.lru)[k].reserved))
            && (free ==> PinnedBytes(c1.lru) == PinnedBytes(c.lru))
            && (free && k in Index(c.lru) && DeletionWorks(c, o.faults, k) ==> At(c1, k).entry == None)
  {
    GetKeeps(c, k);
    var (c1, found) := CacheSpec.Get(c, ACCEPT, k);
    assert At(c1, k) == At(c, k);
    if k in Index(c.lru) {
      PinnedToFront(c.lru, Index(c.lru)[k]);
      BytesWithout(c1.lru, k);
      IndexWithout(c1.lru, k);
    }
  }

  lemma PinnedToFront(s: seq<Entry>, e: Entry)
    requires Unique(s) && e.key in Index(s) && e.size == Index(s)[e.key].size && e.refs == Index(s)[e.key].refs
    ensures PinnedBytes(ToFront(s, e)) == PinnedBytes(s)
  {
    BytesWithout(s, e.key);
    assert ToFront(s, e)[1..] == Without(s, e.key);
  }

  /** Storing over an entry, row and body that are still there. */
  lemma StoreOverAgreesIff(c: Cache, o: Outcome, maxSize: nat, k: string, meta: Metadata, body: Body)
    requires Agrees(c, maxSize, false) && FileDeletionsSucceed(o.faults) && At(c, k) != GONE
    requires RefsOf(At(c, k)) == 0 && k != "" && meta.key == k && meta.bodySize == |body|
    requires PinnedBytes(c.lru) + |body| <= maxSize
    ensures var c' := Store(c, o, maxSize, k, meta, body).0;
            && (Agrees(c', maxSize, false) <==> if o.moves then o.writes else !o.losesTarget)
            && (!Agrees(c', maxSize, false) ==>
                  At(c', k).entry.Some? && At(c', k).row.Some? && At(c', k).body == None)
  {
    var c' := Store(c, o, maxSize, k, meta, body).0;
    assert SlotOk(k, At(c, k), false);
    if o.moves && o.writes {
      var c3 := WithRow(WithFile(c, k, body), meta, o.now);
      var e := Entry(k, |body|, false, 0);
      MakeSpaceIff(c3, o.faults, ACCEPT, maxSize, |body|, k);
      AddOrUpdateEffect(c3, o.faults, ACCEPT, maxSize, e);
      forall j ensures SlotOk(j, At(c', j), false) {
        assert SlotOk(j, At(c, j), false);
        assert j != k ==> At(c3, j) == At(c, j);
      }
    } else {
      forall j | j != k ensures SlotOk(j, At(c', j), false) {
        assert SlotOk(j, At(c, j), false) && At(c', j) == At(c, j);
      }
      assert At(c', k).entry.Some? && At(c', k).row == At(c, k).row;
      if o.moves || o.losesTarget {
        assert !SlotOk(k, At(c', k), false);
      } else {
        assert c' == c;
      }
    }
  }

  /**
   The same in terms of what was there before: the entry to be replaced is still in the way only if its row cannot be
   deleted, and neither can it a second time if all other unread entries together do not make enough room.
   */
  lemma PutAgreesWhen(c: Cache, o: Outcome, maxSize: nat, k: string, meta: Metadata, body: Body)
    requires Agrees(c, maxSize, false) && FileDeletionsSucceed(o.faults)
    requires k != "" && meta.key == k && meta.bodySize == |body|
    ensures Agrees(DoPut(c, o, maxSize, k, meta, body).0, maxSize, false) <==>
              || PinnedBytes(c.lru) + |body| > maxSize
              || k !in Index(c.lru)
              || (var e, n := Index(c.lru)[k], c.disk.deletions;
                  || e.refs > 0 || e.reserved
                  || o.faults.rowDeleted(n)
                  || (PinnedBytes(c.lru) + e.size + |body| > maxSize && o.faults.rowDeleted(n + 1))
                  || if o.moves then o.writes else !o.losesTarget)
  {
    PutAgreesIff(c, o, maxSize, k, meta, body);
    if k in Index(c.lru) && Index(c.lru)[k].refs == 0 && !Index(c.lru)[k].reserved
       && !o.faults.rowDeleted(c.disk.deletions) && PinnedBytes(c.lru) + |body| <= maxSize {
      InTheWayIff(c, o, maxSize, k, |body|);
    }
  }

  /** When the first attempt to delete the row is refused, a second one is made if the scan needs this entry as well. */
  lemma InTheWayIff(c: Cache, o: Outcome, maxSize: nat, k: string, size: nat)
    requires Agrees(c, maxSize, false) && FileDeletionsSucceed(o.faults) && k != ""
    requires k in Index(c.lru) && Index(c.lru)[k].refs == 0 && !Index(c.lru)[k].reserved
    requires !o.faults.rowDeleted(c.disk.deletions) && PinnedBytes(c.lru) + size <= maxSize
    ensures var c2 := MakeSpace(Displace(c, o, k).0, o.faults, ACCEPT, maxSize, size, "").0;
            At(c2, k) == GONE <==>
              PinnedBytes(c.lru) + Index(c.lru)[k].size + size > maxSize && o.faults.rowDeleted(c.disk.deletions + 1)
  {
    var e := Index(c.lru)[k];
    var c1 := RefusedDisplace(c, o, k);
    var need := Bytes(c1.lru) + size - maxSize;
    MakeSpaceIff(c1, o.faults, ACCEPT, maxSize, size, "");
    FrontTaken(c.lru, k, need);
    assert SlotOk(k, At(c, k), false);
    if need > 0 {
      VictimsEvictable(c1, need);
      EvictedFront(c1, o.faults, Victims(c1.lru, need).value, k);
    }
  }

  /** A refused removal moves the entry to the front and has used up one deletion. */
  lemma RefusedDisplace(c: Cache, o: Outcome, k: string) returns (c1: Cache)
    requires Unique(c.lru) && k in Index(c.lru) && Index(c.lru)[k].refs == 0 && !Index(c.lru)[k].reserved
    requires !o.faults.rowDeleted(c.disk.deletions)
    ensures c1 == Displace(c, o, k).0 && c1.lru == ToFront(c.lru, Index(c.lru)[k])
    ensures c1.disk == c.disk.(deletions := c.disk.deletions + 1)
    ensures Unique(c1.lru) && At(c1, k) == At(c, k)
    ensures Bytes(c1.lru) == Bytes(c.lru) && PinnedBytes(c1.lru) == PinnedBytes(c.lru)
  {
    c1 := Displace(c, o, k).0;
    var _ := IndexFound(c.lru, k);
    IndexToFront(c.lru, Index(c.lru)[k]);
    UniqueToFront(c.lru, Index(c.lru)[k]);
    BytesToFront(c.lru, Index(c.lru)[k]);
    PinnedToFront(c.lru, Index(c.lru)[k]);
  }

  lemma FrontTaken(s: seq<Entry>, k: string, need: int)
    requires Unique(s) && k in Index(s) && Index(s)[k].refs == 0
    ensures var found := Victims(ToFront(s, Index(s)[k]), need);
            found.Some? ==>
              && (k in found.value <==> need > Bytes(s) - PinnedBytes(s) - Index(s)[k].size)
              && (k in found.value ==> found.value[0] == k)
  {
    var _ := IndexFound(s, k);
    var rest := Without(s, k);
    BytesWithout(s, k);
    PinnedPlusUnpinned(rest);
    IndexWithout(s, k);
    UniqueWithout(s, k);
    forall i | 0 <= i < |rest| ensures rest[i].key != k {
      IndexAt(rest, i);
    }
    VictimsFront(Index(s)[k], rest, need);
  }

  lemma EvictedFront(c: Cache, f: Faults, ks: seq<string>, k: string)
    requires Unique(c.lru) && Evictable(c, ks) && FileDeletionsSucceed(f) && k in Index(c.lru) && k in c.disk.rows
    requires k in ks ==> ks[0] == k
    ensures At(EvictAll(c, f, ACCEPT, ks, ""), k) == GONE <==> k in ks && f.rowDeleted(c.disk.deletions)
  {
    EvictAllEffect(c, f, ACCEPT, ks, "");
    assert k in ToSet(ks) <==> k in ks;
    if k in ks {
      var c1 := CacheSpec.Remove(c, f, ACCEPT, k).0;
      EvictOne(c, f, ACCEPT, ks, "");
      BaseRemoveEffect(c, f, k);
      EvictAllEffect(c1, f, ACCEPT, ks[1..], "");
      forall i | 0 <= i < |ks[1..]| ensures ks[1..][i] != k {
        assert ks[1..][i] == ks[i + 1];
      }
      assert k !in ToSet(ks[1..]);
      assert At(EvictAll(c, f, ACCEPT, ks, ""), k) == At(c1, k);
      IndexWithout(c.lru, k);
    }
  }

  /** Making space never takes bytes away from the entries being read, so it can be asked for twice. */
  lemma MakeSpacePinned(c: Cache, f: Faults, maxSize: nat, request: nat)
    requires Unique(c.lru)
    ensures PinnedBytes(MakeSpace(c, f, ACCEPT, maxSize, request, "").0.lru) <= PinnedBytes(c.lru)
  {
    var need := Bytes(c.lru) + request - maxSize;
    if need > 0 && Victims(c.lru, need).Some? {
      VictimsUnpinned(c.lru, need);
      EvictAllPinned(c, f, Victims(c.lru, need).value);
    }
  }

  lemma {:induction false} EvictAllPinned(c: Cache, f: Faults, ks: seq<string>)
    requires Unique(c.lru) && Evictable(c, ks)
    ensures PinnedBytes(EvictAll(c, f, ACCEPT, ks, "").lru) <= PinnedBytes(c.lru)
    decreases |ks|
  {
    if ks != [] {
      EvictOne(c, f, ACCEPT, ks, "");
      BytesWithout(c.lru, ks[0]);
      EvictAllPinned(CacheSpec.Remove(c, f, ACCEPT, ks[0]).0, f, ks[1..]);
    }
  }

  /** Every call on an initialized cache keeps index, table and files in agreement. */
  lemma DoAgrees(c: Cache, call: Call, o: Outcome, maxSize: nat, strict: bool)
    requires Agrees(c, maxSize, strict)
    requires Benign(State(true, c), call, o, maxSize, strict)
    ensures Agrees(Do(c, call, o, maxSize).0, maxSize, strict)
  {
    var c' := Do(c, call, o, maxSize).0;
    BackedRows(c, maxSize, strict);
    match call
    case Put(k, meta, body) => PutAgrees(c, o, maxSize, k, meta, body, strict);
    case Purge(busy) =>
      ClearEffect(c, o.faults, busy);
      var (c1, ok) := Clear(c, o.faults, busy);
      forall j ensures SlotOk(j, At(c', j), strict) {
        assert SlotOk(j, At(c, j), strict);
        assert At(c1, j) == At(c, j) || At(c1, j) == GONE;
        assert ok ==> At(c1, j).entry == None;
      }
    case _ =>
      if call.GetMetadata? || call.GetData? || call.Get? {
        LookupAgrees(c, call, o, maxSize, strict);
      } else {
        ChangeAgrees(c, call, o, maxSize, strict);
      }
  }

  lemma OneKeyAgrees(c: Cache, c': Cache, k: string, maxSize: nat, strict: bool)
    requires Agrees(c, maxSize, strict) && Unique(c'.lru) && Bytes(c'.lru) <= Bytes(c.lru)
    requires SlotOk(k, At(c', k), strict) && forall j :: j != k ==> At(c', j) == At(c, j)
    ensures Agrees(c', maxSize, strict)
  {
    forall j ensures SlotOk(j, At(c', j), strict) {
      assert SlotOk(j, At(c, j), strict);
    }
  }

  lemma LookupAgrees(c: Cache, call: Call, o: Outcome, maxSize: nat, strict: bool)
    requires Agrees(c, maxSize, strict) && (call.GetMetadata? || call.GetData? || call.Get?)
    ensures Agrees(Do(c, call, o, maxSize).0, maxSize, strict)
  {
    match call {
      case GetMetadata(k) => GetMetadataEffect(c, o, maxSize, k);
      case GetData(k) => GetDataEffect(c, o, maxSize, k);
      case Get(k) => GetEffect(c, o, maxSize, k);
    }
    assert SlotOk(call.key, At(c, call.key), strict);
    OneKeyAgrees(c, Do(c, call, o, maxSize).0, call.key, maxSize, strict);
  }

  lemma ChangeAgrees(c: Cache, call: Call, o: Outcome, maxSize: nat, strict: bool)
    requires Agrees(c, maxSize, strict) && (call.PutMetadata? || call.Remove? || call.ReleaseData?)
    requires Benign(State(true, c), call, o, maxSize, strict)
    ensures Agrees(Do(c, call, o, maxSize).0, maxSize, strict)
  {
    BackedRows(c, maxSize, strict);
    assert SlotOk(call.key, At(c, call.key), strict);
    match call {
      case PutMetadata(k, meta) => PutMetadataEffect(c, o, maxSize, k, meta);
      case Remove(k) => RemoveKeeps(c, o.faults, k);
      case ReleaseData(k) => ReleaseEffect(c, o, maxSize, k);
    }
    OneKeyAgrees(c, Do(c, call, o, maxSize).0, call.key, maxSize, strict);
  }

  /** Start-up leaves the caller's duty towards one call as it was. */
  lemma BenignReady(st: State, c: Cache, call: Call, o: Outcome, maxSize: nat, strict: bool)
    requires Benign(st, call, o, maxSize, strict)
    requires forall k :: OnlyLost(At(st.cache, k), At(c, k))
    ensures Benign(State(true, c), call, o, maxSize, strict)
  {
    if call.PutMetadata? && call.key in c.disk.rows {
      assert OnlyLost(At(st.cache, call.key), At(c, call.key));
    }
  }

  /** The agreement theorem for one public call, start-up included. */
  lemma StepAgrees(st: State, call: Call, o: Outcome, maxSize: nat, strict: bool)
    requires Consistent(st, maxSize, strict) && Benign(st, call, o, maxSize, strict)
    ensures Consistent(Step(st, call, o, maxSize).0, maxSize, strict)
  {
    var (ready, ok) := if call.ReleaseData? then (st, true) else Initialize(st, o, maxSize);
    if !call.ReleaseData? {
      InitializeAgrees(st, o, maxSize, strict);
    }
    BenignReady(st, ready.cache, call, o, maxSize, strict);
    if ok && ready.ready {
      DoAgrees(ready.cache, call, o, maxSize, strict);
    } else if ok {
      UnreadyKeeps(ready.cache, call, o, maxSize, strict);
    }
  }

  ghost predicate BenignRun(st: State, rs: seq<Request>, maxSize: nat, strict: bool)
    decreases |rs|
  {
    rs != [] ==>
      && Benign(st, rs[0].call, rs[0].o, maxSize, strict)
      && BenignRun(Step(st, rs[0].call, rs[0].o, maxSize).0, rs[1..], maxSize, strict)
  }

  /**
   The agreement theorem over runs of any calls, forced purges and releases nobody asked for included: after every
   call the index, the table and the files hold the same keys, with the same sizes; when row deletions work as well,
   at most `maxSize` bytes are held and only entries that are being read are due for removal.
   */
  lemma {:induction false} RunAgrees(st: State, rs: seq<Request>, maxSize: nat, strict: bool)
    requires Consistent(st, maxSize, strict) && BenignRun(st, rs, maxSize, strict)
    ensures Consistent(After(st, rs, maxSize), maxSize, strict)
    decreases |rs|
  {
    if rs != [] {
      StepAgrees(st, rs[0].call, rs[0].o, maxSize, strict);
      RunAgrees(Step(st, rs[0].call, rs[0].o, maxSize).0, rs[1..], maxSize, strict);
    }
  }

  /** A cache whose table and directory are still empty is consistent. */
  lemma InitialConsistent(maxSize: nat, deletions: nat, strict: bool)
    ensures Consistent(State(false, Cache([], Disk(map[], map[], deletions))), maxSize, strict)
  {
    var c := Cache([], Disk(map[], map[], deletions));
    forall k ensures At(c, k) == GONE {
    }
  }

  /** What a consistent cache leaves on disk is what the next start-up needs, so the theorem carries on after it. */
  lemma RestartConsistent(st: State, maxSize: nat)
    requires Consistent(st, maxSize, true)
    ensures Consistent(State(false, Cache([], st.cache.disk)), maxSize, true)
  {
    var c := Cache([], st.cache.disk);
    forall k ensures At(c, k) == GONE || Listed(k, At(c, k), maxSize) {
      assert At(c, k) == At(st.cache, k).(entry := None);
      if st.ready {
        assert SlotOk(k, At(st.cache, k), true);
        if At(st.cache, k) != GONE {
          BytesWithout(st.cache.lru, k);
        }
      } else {
        assert At(st.cache, k) == GONE || Listed(k, At(st.cache, k), maxSize);
      }
    }
  }
}
