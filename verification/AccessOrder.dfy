/**
 The stamps of last access over whole runs: the row of a key carries the time of its latest use, so the next start-up
 lists the rows in the order of their latest uses and gives up those used longest ago.
 */
module AccessOrder {
  import opened Options
  import opened LruList
  import opened CacheSpec
  import opened FileCacheSpec
  import opened FileCacheRuns
  import opened FileCacheAgreement
  import opened CacheLoad

  /**
   The call uses `k`: it stores a body or metadata for it, or reads its metadata. A `get` reads them even if it then
   cannot open the body.
   */
  predicate Uses(st: State, r: Request, maxSize: nat, k: string) {
    match r.call
    case GetMetadata(j) => j == k && Step(st, r.call, r.o, maxSize).1.ok
    case Get(j) => j == k && Step(st, GetMetadata(j), r.o, maxSize).1.ok
    case PutMetadata(j, meta) => j == k && Step(st, r.call, r.o, maxSize).1.ok
    case Put(j, meta, body) => j == k && Step(st, r.call, r.o, maxSize).1.ok
    case _ => false
  }

  /** Which of the calls is the latest that uses `k`. */
  function LastUse(st: State, rs: seq<Request>, maxSize: nat, k: string): (at: Option<nat>)
    ensures at.Some? ==> at.value < |rs|
    decreases |rs|
  {
    if rs == [] then None
    else
      var later := LastUse(Step(st, rs[0].call, rs[0].o, maxSize).0, rs[1..], maxSize, k);
      if later.Some? then Some(later.value + 1) else if Uses(st, rs[0], maxSize, k) then Some(0) else None
  }

  /** Metadata are stored under the key they carry. */
  predicate OwnKey(call: Call) {
    (call.Put? || call.PutMetadata?) ==> call.meta.key == call.key
  }

  // ---- one call ----

  /** The row is the one that was there, or gone. */
  predicate RowStays(was: Slot, now: Slot) {
    now.row == was.row || now.row == None
  }

  /** The row, if there is one afterwards, has the stamp `at` if the call uses the key, and its old one if not. */
  predicate Stamps(used: bool, at: int, was: Slot, now: Slot) {
    if used then now.row.Some? ==> now.row.value.lastAccessed == at else RowStays(was, now)
  }

  lemma PutStamps(c: Cache, o: Outcome, maxSize: nat, k: string, meta: Metadata, body: Body, j: string)
    requires Unique(c.lru) && meta.key == k
    ensures var (c', reply) := DoPut(c, o, maxSize, k, meta, body);
            Stamps(reply.ok && j == k, o.now, At(c, j), At(c', j))
  {
    var (c1, free) := Displace(c, o, k);
    DisplaceKeeps(c, o, k);
    if free {
      var (c2, roomy) := MakeSpace(c1, o.faults, ACCEPT, maxSize, meta.bodySize, "");
      MakeSpaceEffect(c1, o.faults, ACCEPT, maxSize, meta.bodySize, "");
      assert RowStays(At(c, j), At(c2, j));
      if roomy && o.moves && o.writes {
        var c3 := WithRow(WithFile(c2, k, body), meta, o.now);
        AddOrUpdateOnlyLoses(c3, o.faults, maxSize, Entry(k, meta.bodySize, false, 0));
        assert OnlyLost(At(c3, j), At(DoPut(c, o, maxSize, k, meta, body).0, j));
      }
    }
  }

  lemma PurgeStamps(c: Cache, o: Outcome, busy: bool, j: string)
    requires Unique(c.lru)
    ensures var c' := DoPurge(c, o, busy).0;
            Unique(c'.lru) && RowStays(At(c, j), At(c', j))
  {
    ClearEffect(c, o.faults, busy);
    assert AfterRemoval(At(c, j), At(Clear(c, o.faults, busy).0, j));
  }

  /** The same of a call on an index that is ready. */
  predicate DoUses(c: Cache, call: Call, o: Outcome, maxSize: nat, k: string) {
    match call
    case GetMetadata(j) => j == k && DoGetMetadata(c, o, j).1.ok
    case Get(j) => j == k && DoGetMetadata(c, o, j).1.ok
    case PutMetadata(j, meta) => j == k && DoPutMetadata(c, o, j, meta).1.ok
    case Put(j, meta, body) => j == k && DoPut(c, o, maxSize, j, meta, body).1.ok
    case _ => false
  }

  lemma DoStamps(c: Cache, call: Call, o: Outcome, maxSize: nat, k: string)
    requires Unique(c.lru) && OwnKey(call)
    ensures var c' := Do(c, call, o, maxSize).0;
            Unique(c'.lru) && Stamps(DoUses(c, call, o, maxSize, k), o.now, At(c, k), At(c', k))
  {
    match call
    case GetMetadata(j) => GetMetadataEffect(c, o, maxSize, j);
    case GetData(j) => GetDataEffect(c, o, maxSize, j);
    case Get(j) => GetEffect(c, o, maxSize, j);
    case PutMetadata(j, meta) => PutMetadataEffect(c, o, maxSize, j, meta);
    case Put(j, meta, body) =>
      PutEffect(c, o, maxSize, j, meta, body);
      PutStamps(c, o, maxSize, j, meta, body, k);
    case Remove(j) => RemoveKeeps(c, o.faults, j);
    case ReleaseData(j) => ReleaseEffect(c, o, maxSize, j);
    case Purge(busy) => PurgeStamps(c, o, busy, k);
  }

  /** A public call, start-up included, stamps the row of the key it uses and no other. */
  lemma StepStamps(st: State, r: Request, maxSize: nat, k: string)
    requires Unique(st.cache.lru) && OwnKey(r.call)
    ensures var st' := Step(st, r.call, r.o, maxSize).0;
            && Unique(st'.cache.lru)
            && Stamps(Uses(st, r, maxSize, k), r.o.now, At(st.cache, k), At(st'.cache, k))
  {
    var (ready, ok) := if r.call.ReleaseData? then (st, true) else Initialize(st, r.o, maxSize);
    if ready != st {
      LoadOnlyLoses(st.cache, r.o.faults, maxSize, st.cache.disk.rows, Listing(r.o));
      assert OnlyLost(At(st.cache, k), At(ready.cache, k));
    }
    if ok {
      DoStamps(ready.cache, r.call, Reach(r.o, ready.ready), maxSize, k);
    }
  }

  /** After a look-up that read the metadata of `k` its row is there, with the time of that look-up. */
  lemma LookUpStamps(st: State, r: Request, maxSize: nat, k: string)
    requires Unique(st.cache.lru) && (r.call == GetMetadata(k) || r.call == Get(k))
    ensures var (st', reply) := Step(st, r.call, r.o, maxSize);
            var row := At(st'.cache, k).row;
            && (reply.ok ==> Uses(st, r, maxSize, k))
            && (Uses(st, r, maxSize, k) ==> row.Some? && row.value.lastAccessed == r.o.now)
            && (!Uses(st, r, maxSize, k) ==> RowStays(At(st.cache, k), At(st'.cache, k)))
  {
    var (ready, ok) := Initialize(st, r.o, maxSize);
    StepStamps(st, r, maxSize, k);
    if ready != st {
      LoadOnlyLoses(st.cache, r.o.faults, maxSize, st.cache.disk.rows, Listing(r.o));
    }
    if ok {
      GetMetadataEffect(ready.cache, Reach(r.o, ready.ready), maxSize, k);
      GetEffect(ready.cache, Reach(r.o, ready.ready), maxSize, k);
    }
  }

  // ---- runs ----

  ghost predicate OwnKeys(rs: seq<Request>) {
    forall i | 0 <= i < |rs| :: OwnKey(rs[i].call)
  }

  /**
   After any run, under any failures, every row carries the time of the latest call that used its key, or the stamp it
   had before when no call did.
   */
  lemma {:induction false} RowsTellLastUse(st: State, rs: seq<Request>, maxSize: nat, k: string)
    requires Unique(st.cache.lru) && OwnKeys(rs)
    ensures var row := At(After(st, rs, maxSize).cache, k).row;
            row.Some? ==>
              match LastUse(st, rs, maxSize, k)
              case Some(i) => row.value.lastAccessed == rs[i].o.now
              case None =>
                At(st.cache, k).row.Some? && row.value.lastAccessed == At(st.cache, k).row.value.lastAccessed
    decreases |rs|
  {
    if rs != [] {
      var st' := Step(st, rs[0].call, rs[0].o, maxSize).0;
      StepStamps(st, rs[0], maxSize, k);
      RowsTellLastUse(st', rs[1..], maxSize, k);
    }
  }

  /** The clock does not go back during the run, and is past every stamp in the table when it begins. */
  ghost predicate Clocked(st: State, rs: seq<Request>) {
    && (forall i, j :: 0 <= i < j < |rs| ==> rs[i].o.now <= rs[j].o.now)
    && (forall i, k :: 0 <= i < |rs| && k in st.cache.disk.rows ==>
          st.cache.disk.rows[k].lastAccessed <= rs[i].o.now)
  }

  /** The stamp that the row of `k` has after the run: that of its latest use, or the one it had. */
  function StampOf(st: State, rs: seq<Request>, maxSize: nat, k: string): Option<int> {
    match LastUse(st, rs, maxSize, k)
    case Some(i) => Some(rs[i].o.now)
    case None => if k in st.cache.disk.rows then Some(st.cache.disk.rows[k].lastAccessed) else None
  }

  lemma RowTellsStamp(st: State, rs: seq<Request>, maxSize: nat, k: string)
    requires Unique(st.cache.lru) && OwnKeys(rs) && k in After(st, rs, maxSize).cache.disk.rows
    ensures StampOf(st, rs, maxSize, k) == Some(After(st, rs, maxSize).cache.disk.rows[k].lastAccessed)
  {
    RowsTellLastUse(st, rs, maxSize, k);
  }

  /** `a` was not used later than `b`, as far as the clock tells. */
  predicate NotLater(st: State, rs: seq<Request>, maxSize: nat, a: string, b: string) {
    match (LastUse(st, rs, maxSize, a), LastUse(st, rs, maxSize, b))
    case (Some(i), Some(j)) => i < j || rs[i].o.now == rs[j].o.now
    case (Some(i), None) => b in st.cache.disk.rows && st.cache.disk.rows[b].lastAccessed == rs[i].o.now
    case (None, Some(j)) => true
    case (None, None) =>
      && a in st.cache.disk.rows && b in st.cache.disk.rows
      && st.cache.disk.rows[a].lastAccessed <= st.cache.disk.rows[b].lastAccessed
  }

  /**
   The listing at the next start-up is in the order of the latest uses: of two keys, whichever was used later in the run
   is listed later, unless the clock showed the same time for both uses; a key not used in the run keeps its old place.
   */
  lemma ListedByUse(st: State, rs: seq<Request>, maxSize: nat, order: seq<string>, p: nat, q: nat)
    requires Unique(st.cache.lru) && OwnKeys(rs) && Clocked(st, rs)
    requires InOrder(After(st, rs, maxSize).cache.disk.rows, order) && p < q < |order|
    ensures NotLater(st, rs, maxSize, order[p], order[q])
  {
    var rows := After(st, rs, maxSize).cache.disk.rows;
    var a, b := order[p], order[q];
    assert a in rows && b in rows && rows[a].lastAccessed <= rows[b].lastAccessed;
    RowTellsStamp(st, rs, maxSize, a);
    RowTellsStamp(st, rs, maxSize, b);
  }

  // ---- the next start-up ----

  /** The rows that fit are in the order of the listing. */
  lemma {:induction false} FittingInOrder(rows: map<string, Row>, order: seq<string>, maxSize: nat, x: nat, y: nat)
    returns (p: nat, q: nat)
    requires x < y < |Fitting(rows, order, maxSize)|
    ensures p < q < |order|
    ensures order[p] == Fitting(rows, order, maxSize)[x] && order[q] == Fitting(rows, order, maxSize)[y]
    decreases |order|
  {
    if StoredSize(rows, order[0]) > maxSize {
      p, q := FittingInOrder(rows, order[1..], maxSize, x, y);
      p, q := p + 1, q + 1;
    } else if x > 0 {
      p, q := FittingInOrder(rows, order[1..], maxSize, x - 1, y - 1);
      p, q := p + 1, q + 1;
    } else {
      q := FittingAt(rows, order[1..], maxSize, y - 1);
      p, q := 0, q + 1;
    }
  }

  lemma {:induction false} FittingAt(rows: map<string, Row>, order: seq<string>, maxSize: nat, y: nat) returns (q: nat)
    requires y < |Fitting(rows, order, maxSize)|
    ensures q < |order| && order[q] == Fitting(rows, order, maxSize)[y]
    decreases |order|
  {
    if StoredSize(rows, order[0]) > maxSize {
      q := FittingAt(rows, order[1..], maxSize, y);
      q := q + 1;
    } else if y > 0 {
      q := FittingAt(rows, order[1..], maxSize, y - 1);
      q := q + 1;
    } else {
      q := 0;
    }
  }

  /**
   What the start-up after a run gives up (`dead`) was not used later than anything it keeps (`live`), and it keeps as
   many of the latest used rows as fit.
   */
  lemma RestartKeepsLatestUsed(st: State, rs: seq<Request>, maxSize: nat, f: Faults, order: seq<string>)
    returns (dead: seq<string>, live: seq<string>)
    requires Unique(st.cache.lru) && OwnKeys(rs) && Clocked(st, rs)
    requires DeletionsSucceed(f) && InOrder(After(st, rs, maxSize).cache.disk.rows, order)
    ensures var disk := After(st, rs, maxSize).cache.disk;
            && dead + live == Fitting(disk.rows, order, maxSize)
            && Loaded(Load(Cache([], disk), f, maxSize, disk.rows, order), disk, maxSize, disk.rows, dead, live)
    ensures forall a, b :: a in dead && b in live ==> NotLater(st, rs, maxSize, a, b)
  {
    var disk := After(st, rs, maxSize).cache.disk;
    dead, live := LoadIsLongestSuffix(Cache([], disk), f, maxSize, order);
    forall a, b | a in dead && b in live ensures NotLater(st, rs, maxSize, a, b) {
      var x :| 0 <= x < |dead| && dead[x] == a;
      var y :| 0 <= y < |live| && live[y] == b;
      assert (dead + live)[x] == a && (dead + live)[|dead| + y] == b;
      var p, q := FittingInOrder(disk.rows, order, maxSize, x, |dead| + y);
      ListedByUse(st, rs, maxSize, order, p, q);
    }
  }
}
