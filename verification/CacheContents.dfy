/**
 What the file cache answers over whole runs: a successful look-up returns the body of the latest successful `put` of
 the key, and the metadata of its latest successful `put` or `putMetadata`, start-up and evictions in between included.
 */
module CacheContents {
  import opened Options
  import opened LruList
  import opened CacheSpec
  import opened FileCacheSpec
  import opened FileCacheRuns
  import opened FileCacheAgreement

  datatype Content = Content(meta: Metadata, body: Body)

  /** What the replies so far say was stored last for each key. */
  function Learned(known: map<string, Content>, call: Call, reply: Reply): map<string, Content> {
    match call
    case Put(k, meta, body) => if reply.ok then known[k := Content(meta, body)] else known
    case PutMetadata(k, meta) => if reply.ok && k in known then known[k := known[k].(meta := meta)] else known
    case _ => known
  }

  function LearnedBy(known: map<string, Content>, st: State, rs: seq<Request>, maxSize: nat): map<string, Content>
    decreases |rs|
  {
    if rs == [] then known
    else
      var (st', reply) := Step(st, rs[0].call, rs[0].o, maxSize);
      LearnedBy(Learned(known, rs[0].call, reply), st', rs[1..], maxSize)
  }

  predicate Told(s: Slot, known: Option<Content>) {
    && (s.row.Some? ==> known.Some? && s.row.value.meta == known.value.meta)
    && (s.body.Some? ==> known.Some? && s.body.value == known.value.body)
  }

  function KnownAt(known: map<string, Content>, k: string): Option<Content> {
    if k in known then Some(known[k]) else None
  }

  /** Whatever is on disk is what was stored last. */
  ghost predicate Tells(c: Cache, known: map<string, Content>) {
    forall k :: Told(At(c, k), KnownAt(known, k))
  }

  /** No other content than before: rows may be stamped, rows and bodies may go. */
  predicate NothingNew(was: Slot, now: Slot) {
    && (now.row.Some? ==> was.row.Some? && now.row.value.meta == was.row.value.meta)
    && (now.body.Some? ==> now.body == was.body)
  }

  lemma StoreContents(c: Cache, o: Outcome, maxSize: nat, k: string, meta: Metadata, body: Body)
    requires Unique(c.lru) && FileDeletionsSucceed(o.faults) && meta.key == k
    ensures var (c', reply) := Store(c, o, maxSize, k, meta, body);
            forall j :: (reply.ok ==> j != k) ==> NothingNew(At(c, j), At(c', j))
  {
    if o.moves && o.writes {
      var c1 := WithRow(WithFile(c, k, body), meta, o.now);
      AddOrUpdateOnlyLoses(c1, o.faults, maxSize, Entry(k, meta.bodySize, false, 0));
      var c' := AddOrUpdate(c1, o.faults, ACCEPT, maxSize, Entry(k, meta.bodySize, false, 0)).0;
      forall j | j != k ensures NothingNew(At(c, j), At(c', j)) {
        assert OnlyLost(At(c1, j), At(c', j));
      }
    }
  }

  lemma PutContents(c: Cache, o: Outcome, maxSize: nat, k: string, meta: Metadata, body: Body)
    requires Unique(c.lru) && FileDeletionsSucceed(o.faults) && meta.key == k
    ensures var (c', reply) := DoPut(c, o, maxSize, k, meta, body);
            forall j :: (reply.ok ==> j != k) ==> NothingNew(At(c, j), At(c', j))
  {
    var (c1, free) := Displace(c, o, k);
    DisplaceKeeps(c, o, k);
    assert forall j :: NothingNew(At(c, j), At(c1, j));
    if free {
      MakeSpaceEffect(c1, o.faults, ACCEPT, maxSize, meta.bodySize, "");
      var (c2, roomy) := MakeSpace(c1, o.faults, ACCEPT, maxSize, meta.bodySize, "");
      forall j ensures NothingNew(At(c, j), At(c2, j)) {
        assert NothingNew(At(c, j), At(c1, j));
      }
      if roomy {
        StoreContents(c2, o, maxSize, k, meta, body);
        var (c', reply) := Store(c2, o, maxSize, k, meta, body);
        forall j | reply.ok ==> j != k ensures NothingNew(At(c, j), At(c', j)) {
          assert NothingNew(At(c2, j), At(c', j));
        }
      }
    }
  }

  /** Only a successful `put` or `putMetadata` of a key brings new content for it. */
  lemma DoContents(c: Cache, call: Call, o: Outcome, maxSize: nat)
    requires Unique(c.lru) && FileDeletionsSucceed(o.faults)
    requires (call.Put? || call.PutMetadata?) ==> call.meta.key == call.key
    ensures var (c', reply) := Do(c, call, o, maxSize);
            forall j :: (reply.ok && (call.Put? || call.PutMetadata?) ==> j != call.key) ==>
                          NothingNew(At(c, j), At(c', j))
  {
    match call
    case GetMetadata(k) => GetMetadataEffect(c, o, maxSize, k);
    case GetData(k) => GetDataEffect(c, o, maxSize, k);
    case Get(k) => GetEffect(c, o, maxSize, k);
    case PutMetadata(k, meta) => PutMetadataEffect(c, o, maxSize, k, meta);
    case Put(k, meta, body) => PutContents(c, o, maxSize, k, meta, body);
    case Remove(k) => RemoveKeeps(c, o.faults, k);
    case ReleaseData(k) => ReleaseEffect(c, o, maxSize, k);
    case Purge(busy) =>
      ClearEffect(c, o.faults, busy);
      var c1 := Clear(c, o.faults, busy).0;
      var c' := DoPurge(c, o, busy).0;
      forall j ensures NothingNew(At(c, j), At(c', j)) {
        assert AfterRemoval(At(c, j), At(c1, j));
      }
  }

  /** What a successful look-up of `k` answers when `known` is stored for `k`. */
  predicate Returns(call: Call, reply: Reply, known: Option<Content>) {
    match call
    case GetMetadata(_) => known.Some? && reply.meta == Some(known.value.meta) && reply.stream == None
    case GetData(_) => known.Some? && reply.meta == None && reply.stream == Some(known.value.body)
    case Get(_) => known.Some? && reply.meta == Some(known.value.meta) && reply.stream == Some(known.value.body)
    case _ => true
  }

  /** Entries have rows, and rows carry their own key. */
  ghost predicate Keyed(c: Cache) {
    forall k ::
      && (At(c, k).entry.Some? ==> At(c, k).row.Some?)
      && (At(c, k).row.Some? ==> At(c, k).row.value.meta.key == k)
  }

  lemma ConsistentKeyed(st: State, maxSize: nat, strict: bool)
    requires Consistent(st, maxSize, strict)
    ensures Unique(st.cache.lru) && Keyed(st.cache)
  {
    forall k
      ensures At(st.cache, k).entry.Some? ==> At(st.cache, k).row.Some?
      ensures At(st.cache, k).row.Some? ==> At(st.cache, k).row.value.meta.key == k
    {
      if st.ready {
        assert SlotOk(k, At(st.cache, k), strict);
      } else {
        assert At(st.cache, k) == GONE || Listed(k, At(st.cache, k), maxSize);
      }
    }
  }

  lemma DoAnswers(c: Cache, call: Call, o: Outcome, maxSize: nat, known: map<string, Content>)
    requires Unique(c.lru) && Keyed(c) && Tells(c, known)
    ensures var reply := Do(c, call, o, maxSize).1;
            reply.ok && !call.Purge? ==> Returns(call, reply, KnownAt(known, call.key))
  {
    if call.GetMetadata? || call.GetData? || call.Get? {
      var k := call.key;
      GetKeeps(c, k);
      assert At(CacheSpec.Get(c, ACCEPT, k).0, k) == At(c, k);
      assert Told(At(c, k), KnownAt(known, k));
    }
  }

  /** A `put` that succeeds has stored just what it was given. */
  ghost predicate Stores(c: Cache, call: Call, o: Outcome, maxSize: nat) {
    var (c', reply) := Do(c, call, o, maxSize);
    call.Put? && reply.ok ==>
      var s := At(c', call.key);
      s.row.Some? && s.row.value.meta == call.meta && s.body == Some(call.body)
  }

  lemma DoTells(c: Cache, call: Call, o: Outcome, maxSize: nat, known: map<string, Content>)
    requires Unique(c.lru) && Keyed(c) && Tells(c, known)
    requires FileDeletionsSucceed(o.faults) && Stores(c, call, o, maxSize)
    requires (call.Put? || call.PutMetadata?) ==> call.meta.key == call.key
    ensures var (c', reply) := Do(c, call, o, maxSize);
            Tells(c', Learned(known, call, reply))
  {
    var (c', reply) := Do(c, call, o, maxSize);
    var known' := Learned(known, call, reply);
    DoContents(c, call, o, maxSize);
    if call.PutMetadata? {
      PutMetadataEffect(c, o, maxSize, call.key, call.meta);
    }
    forall k ensures Told(At(c', k), KnownAt(known', k)) {
      assert Told(At(c, k), KnownAt(known, k));
    }
  }

  /** The call itself, on the index as it is. */
  lemma AfterStart(st: State, call: Call, o: Outcome, maxSize: nat, known: map<string, Content>, strict: bool)
    requires Consistent(st, maxSize, strict) && Benign(State(true, st.cache), call, o, maxSize, strict)
    requires Tells(st.cache, known)
    ensures var (c', reply) := Do(st.cache, call, Reach(o, st.ready), maxSize);
            && Tells(c', Learned(known, call, reply))
            && (reply.ok && !call.Purge? ==> Returns(call, reply, KnownAt(known, call.key)))
  {
    ConsistentKeyed(st, maxSize, strict);
    if st.ready && call.Put? {
      PutAgrees(st.cache, o, maxSize, call.key, call.meta, call.body, strict);
    }
    DoTells(st.cache, call, Reach(o, st.ready), maxSize, known);
    DoAnswers(st.cache, call, Reach(o, st.ready), maxSize, known);
  }

  /** One public call, start-up included, answers from what was stored last and keeps it so. */
  lemma StepTells(st: State, call: Call, o: Outcome, maxSize: nat, known: map<string, Content>, strict: bool)
    requires Consistent(st, maxSize, strict) && Benign(st, call, o, maxSize, strict) && Tells(st.cache, known)
    ensures var (st', reply) := Step(st, call, o, maxSize);
            && Tells(st'.cache, Learned(known, call, reply))
            && (reply.ok && !call.Purge? ==> Returns(call, reply, KnownAt(known, call.key)))
  {
    var (ready, ok) := if call.ReleaseData? then (st, true) else Initialize(st, o, maxSize);
    if !call.ReleaseData? {
      InitializeAgrees(st, o, maxSize, strict);
    }
    forall k ensures Told(At(ready.cache, k), KnownAt(known, k)) {
      assert Told(At(st.cache, k), KnownAt(known, k));
      assert OnlyLost(At(st.cache, k), At(ready.cache, k));
    }
    BenignReady(st, ready.cache, call, o, maxSize, strict);
    if ok {
      AfterStart(ready, call, o, maxSize, known, strict);
    }
  }

  lemma {:induction false} RunTells(st: State, rs: seq<Request>, maxSize: nat, known: map<string, Content>,
                                     strict: bool)
    requires Consistent(st, maxSize, strict) && BenignRun(st, rs, maxSize, strict) && Tells(st.cache, known)
    ensures Tells(After(st, rs, maxSize).cache, LearnedBy(known, st, rs, maxSize))
    decreases |rs|
  {
    if rs != [] {
      var (st', reply) := Step(st, rs[0].call, rs[0].o, maxSize);
      StepTells(st, rs[0].call, rs[0].o, maxSize, known, strict);
      StepAgrees(st, rs[0].call, rs[0].o, maxSize, strict);
      RunTells(st', rs[1..], maxSize, Learned(known, rs[0].call, reply), strict);
    }
  }

  /** What a directory and its table hold when the program starts. */
  function Found(d: Disk): map<string, Content> {
    map k | k in d.rows && k in d.files :: Content(d.rows[k].meta, d.files[k])
  }

  lemma FoundTells(st: State, maxSize: nat, strict: bool)
    requires Consistent(st, maxSize, strict)
    ensures Tells(st.cache, Found(st.cache.disk))
  {
    forall k ensures Told(At(st.cache, k), KnownAt(Found(st.cache.disk), k)) {
      if st.ready {
        assert SlotOk(k, At(st.cache, k), strict);
      } else {
        assert At(st.cache, k) == GONE || Listed(k, At(st.cache, k), maxSize);
      }
    }
  }

  /**
   The read theorem: after any run, a look-up that succeeds returns exactly what the latest successful `put` and
   `putMetadata` of its key stored, or what was found on disk when no such call was made.
   */
  lemma ReadsLatest(st: State, rs: seq<Request>, call: Call, o: Outcome, maxSize: nat, strict: bool)
    requires Consistent(st, maxSize, strict) && BenignRun(st, rs, maxSize, strict)
    requires Benign(After(st, rs, maxSize), call, o, maxSize, strict)
    requires call.GetMetadata? || call.GetData? || call.Get?
    ensures var known := LearnedBy(Found(st.cache.disk), st, rs, maxSize);
            var reply := Step(After(st, rs, maxSize), call, o, maxSize).1;
            reply.ok ==> Returns(call, reply, KnownAt(known, call.key))
  {
    FoundTells(st, maxSize, strict);
    RunTells(st, rs, maxSize, Found(st.cache.disk), strict);
    RunAgrees(st, rs, maxSize, strict);
    StepTells(After(st, rs, maxSize), call, o, maxSize, LearnedBy(Found(st.cache.disk), st, rs, maxSize), strict);
  }

  /** No `put` and no `putMetadata` of `k` succeeds during the run. */
  ghost predicate NoneStored(st: State, rs: seq<Request>, maxSize: nat, k: string)
    decreases |rs|
  {
    rs != [] ==>
      var (st', reply) := Step(st, rs[0].call, rs[0].o, maxSize);
      && !((rs[0].call.Put? || rs[0].call.PutMetadata?) && rs[0].call.key == k && reply.ok)
      && NoneStored(st', rs[1..], maxSize, k)
  }

  lemma {:induction false} NoneStoredKnown(st: State, rs: seq<Request>, maxSize: nat, known: map<string, Content>,
                                            k: string)
    requires NoneStored(st, rs, maxSize, k)
    ensures KnownAt(LearnedBy(known, st, rs, maxSize), k) == KnownAt(known, k)
    decreases |rs|
  {
    if rs != [] {
      var (st', reply) := Step(st, rs[0].call, rs[0].o, maxSize);
      NoneStoredKnown(st', rs[1..], maxSize, Learned(known, rs[0].call, reply), k);
    }
  }

  /** What was put is what is got, however many other calls come in between. */
  lemma PutThenLaterGet(st: State, put: Request, rs: seq<Request>, o: Outcome, maxSize: nat, strict: bool)
    requires put.call.Put? && Consistent(st, maxSize, strict) && BenignRun(st, [put] + rs, maxSize, strict)
    requires var (st1, stored) := Step(st, put.call, put.o, maxSize);
             && stored.ok && NoneStored(st1, rs, maxSize, put.call.key)
             && Benign(After(st1, rs, maxSize), Get(put.call.key), o, maxSize, strict)
    ensures var st1 := Step(st, put.call, put.o, maxSize).0;
            var reply := Step(After(st1, rs, maxSize), Get(put.call.key), o, maxSize).1;
            reply.ok ==> reply == Reply(true, Some(put.call.meta), Some(put.call.body))
  {
    var all := [put] + rs;
    assert all[0] == put && all[1..] == rs;
    var (st1, stored) := Step(st, put.call, put.o, maxSize);
    ReadsLatest(st, all, Get(put.call.key), o, maxSize, strict);
    NoneStoredKnown(st1, rs, maxSize, Learned(Found(st.cache.disk), put.call, stored), put.call.key);
  }
}
