/**
 Whole runs of file cache calls: who is reading which body, what every call keeps, and what happens to an
 entry whose removal has been put off.
 */
module FileCacheRuns {
  import opened Options
  import opened LruList
  import opened CacheSpec
  import opened FileCacheSpec

  // ---- the effect of one operation on one key ----

  function RefsOf(s: Slot): nat {
    if s.entry.Some? then s.entry.value.refs else 0
  }

  /** What every call leaves alone: an entry being read keeps its record and its body; others gain no reader. */
  predicate Calm(was: Slot, now: Slot) {
    if RefsOf(was) > 0 then now.entry == was.entry && now.body == was.body else RefsOf(now) == 0
  }

  lemma BytesToFront(s: seq<Entry>, e: Entry)
    requires Unique(s) && e.key in Index(s) && e.size == Index(s)[e.key].size
    ensures Bytes(ToFront(s, e)) == Bytes(s)
  {
    BytesWithout(s, e.key);
    assert ToFront(s, e)[1..] == Without(s, e.key);
  }

  /** A look-up reorders, and changes nothing else. */
  lemma GetKeeps(c: Cache, k: string)
    requires Unique(c.lru)
    ensures var (c1, found) := CacheSpec.Get(c, ACCEPT, k);
            && Unique(c1.lru) && Bytes(c1.lru) == Bytes(c.lru)
            && c1.disk == c.disk
            && (forall j :: At(c1, j) == At(c, j))
            && found == At(c, k).entry
            && (found.Some? ==> found.value.key == k)
  {
    if k in Index(c.lru) {
      var _ := IndexFound(c.lru, k);
      UniqueToFront(c.lru, Index(c.lru)[k]);
      IndexToFront(c.lru, Index(c.lru)[k]);
      BytesToFront(c.lru, Index(c.lru)[k]);
    }
  }

  /** Updating the record of a present entry of unchanged size, as opening and releasing a body do. */
  lemma UpdateKeeps(c: Cache, f: Faults, maxSize: nat, e: Entry)
    requires Unique(c.lru) && e.key in Index(c.lru) && e.size == Index(c.lru)[e.key].size
    ensures var c' := Update(c, f, ACCEPT, maxSize, e).0;
            && Unique(c'.lru) && Bytes(c'.lru) <= Bytes(c.lru)
            && (forall j :: j != e.key ==> At(c', j) == At(c, j))
            && (e.refs > 0 || !e.reserved ==> At(c', e.key) == At(c, e.key).(entry := Some(e)))
            && (e.refs == 0 && e.reserved ==> AfterRemoval(At(c, e.key).(entry := Some(e)), At(c', e.key)))
            && (FileDeletionsSucceed(f) && e.refs == 0 && e.reserved ==>
                  At(c', e.key) == GONE || At(c', e.key) == At(c, e.key).(entry := Some(e)))
            && (DeletionsSucceed(f) && e.key in c.disk.rows && e.refs == 0 && e.reserved ==> At(c', e.key) == GONE)
  {
    UniqueToFront(c.lru, e);
    IndexToFront(c.lru, e);
    BytesToFront(c.lru, e);
    var c1 := c.(lru := ToFront(c.lru, e));
    assert BaseUpdate(c, f, ACCEPT, maxSize, e) == (c1, true);
    BaseRemoveEffect(c1, f, e.key);
  }

  lemma RemoveKeeps(c: Cache, f: Faults, k: string)
    requires Unique(c.lru)
    ensures var (c', ok) := CacheSpec.Remove(c, f, ACCEPT, k);
            && Unique(c'.lru) && Bytes(c'.lru) <= Bytes(c.lru)
            && (forall j :: j != k ==> At(c', j) == At(c, j))
            && (RefsOf(At(c, k)) > 0 ==>
                  At(c', k) == At(c, k).(entry := Some(At(c, k).entry.value.(reserved := true))))
            && (RefsOf(At(c, k)) == 0 ==> AfterRemoval(At(c, k), At(c', k)))
            && (FileDeletionsSucceed(f) && RefsOf(At(c, k)) == 0 ==> At(c', k) == At(c, k) || At(c', k) == GONE)
            && (DeletionsSucceed(f) && RefsOf(At(c, k)) == 0 && k in Index(c.lru) && k in c.disk.rows ==>
                  At(c', k) == GONE)
  {
    BaseRemoveEffect(c, f, k);
    if RefsOf(At(c, k)) > 0 {
      var _ := IndexFound(c.lru, k);
      var e := Index(c.lru)[k].(reserved := true);
      UniqueToFront(c.lru, e);
      IndexToFront(c.lru, e);
      BytesToFront(c.lru, e);
      if Index(c.lru)[k].reserved {
        assert e == Index(c.lru)[k];
      }
    }
  }

  /** A row that was read is stamped with the time of the call, and nothing else is. */
  lemma ReadRowKeeps(c: Cache, o: Outcome, k: string)
    ensures var (c1, meta) := ReadRow(c, o, k);
            && c1.lru == c.lru && c1.disk.files == c.disk.files
            && (forall j :: j != k ==> At(c1, j) == At(c, j))
            && (if meta.Some? then
                  && At(c, k).row.Some?
                  && At(c1, k) == At(c, k).(row := Some(At(c, k).row.value.(lastAccessed := o.now)))
                else At(c1, k) == At(c, k))
  {
  }

  /** The next deletion attempt removes both the row and the file of `k`, if `k` is in the index at all. */
  predicate DeletionWorks(c: Cache, f: Faults, k: string) {
    k in Index(c.lru) ==> k in c.disk.rows && f.rowDeleted(c.disk.deletions) && f.fileDeleted(c.disk.deletions)
  }

  lemma DisplaceKeeps(c: Cache, o: Outcome, k: string)
    requires Unique(c.lru)
    ensures var (c', free) := Displace(c, o, k);
            && Unique(c'.lru) && Bytes(c'.lru) <= Bytes(c.lru)
            && (forall j :: j != k ==> At(c', j) == At(c, j))
            && (!free ==> At(c', k) == At(c, k))
            && (free ==> RefsOf(At(c, k)) == 0 && AfterRemoval(At(c, k), At(c', k)))
            && (FileDeletionsSucceed(o.faults) ==> At(c', k) == At(c, k) || At(c', k) == GONE)
            && (free && DeletionWorks(c, o.faults, k) ==> At(c', k).entry == None)
  {
    var (c1, found) := CacheSpec.Get(c, ACCEPT, k);
    GetKeeps(c, k);
    assert At(c1, k) == At(c, k);
    RemoveKeeps(c1, o.faults, k);
    BaseRemoveEffect(c1, o.faults, k);
  }

  lemma MakeSpaceCalm(c: Cache, f: Faults, maxSize: nat, request: nat)
    requires Unique(c.lru)
    ensures var c' := MakeSpace(c, f, ACCEPT, maxSize, request, "").0;
            && Unique(c'.lru)
            && (forall j :: Calm(At(c, j), At(c', j)))
            && (forall j :: At(c, j).entry == None ==> At(c', j) == At(c, j))
  {
    MakeSpaceEffect(c, f, ACCEPT, maxSize, request, "");
  }

  /** Replacing a body never touches an entry that is being read. */
  lemma StoreCalm(c: Cache, o: Outcome, maxSize: nat, k: string, meta: Metadata, body: Body)
    requires Unique(c.lru) && RefsOf(At(c, k)) == 0
    ensures var c' := Store(c, o, maxSize, k, meta, body).0;
            && Unique(c'.lru)
            && (forall j :: Calm(At(c, j), At(c', j)))
  {
    if o.moves && o.writes {
      var c1 := WithRow(WithFile(c, k, body), meta, o.now);
      var e := Entry(k, meta.bodySize, false, 0);
      AddOrUpdateEffect(c1, o.faults, ACCEPT, maxSize, e);
      var c2 := AddOrUpdate(c1, o.faults, ACCEPT, maxSize, e).0;
      assert Store(c, o, maxSize, k, meta, body).0 == c2;
      if c2 != c1 {
        IndexAt(c2.lru, 0);
      }
      forall j ensures Calm(At(c, j), At(c2, j)) {
        assert At(c1, j).entry == At(c, j).entry;
      }
    }
  }

  /** What a call promises about the key it is about, when that entry is being read. */
  predicate Handled(call: Call, reply: Reply, was: Slot, now: Slot)
    requires RefsOf(was) > 0
  {
    var e := was.entry.value;
    match call
    case GetData(_) =>
      if reply.ok then
        now.entry == Some(e.(refs := e.refs + 1)) && now.body == was.body == reply.stream && reply.stream.Some?
      else Calm(was, now)
    case Get(_) =>
      if reply.ok then
        now.entry == Some(e.(refs := e.refs + 1)) && now.body == was.body == reply.stream && reply.stream.Some?
      else Calm(was, now)
    case Remove(_) => now.entry == Some(e.(reserved := true)) && now.body == was.body
    case ReleaseData(_) =>
      if e.refs > 1 || !e.reserved then now.entry == Some(e.(refs := e.refs - 1)) && now.body == was.body
      else RefsOf(now) == 0
    case _ => Calm(was, now)
  }

  /** The same when nobody is reading it: only a successful look-up of the data makes a reader. */
  predicate HandledIdle(call: Call, reply: Reply, was: Slot, now: Slot) {
    if (call.GetData? || call.Get?) && reply.ok then
      && was.entry.Some? && now.entry == Some(was.entry.value.(refs := 1))
      && now.body == was.body == reply.stream && reply.stream.Some?
    else RefsOf(now) == 0
  }

  predicate Target(call: Call, k: string) {
    !call.Purge? && call.key == k
  }

  predicate Effect(call: Call, reply: Reply, k: string, was: Slot, now: Slot) {
    if !Target(call, k) then Calm(was, now)
    else if RefsOf(was) > 0 then Handled(call, reply, was, now)
    else HandledIdle(call, reply, was, now)
  }

  lemma OpenEffect(c: Cache, o: Outcome, maxSize: nat, k: string)
    requires Unique(c.lru) && k in Index(c.lru) && !Index(c.lru)[k].reserved
    ensures var e := Index(c.lru)[k];
            var (c', stream) := Open(c, o, maxSize, e);
            && Unique(c'.lru) && Bytes(c'.lru) <= Bytes(c.lru)
            && (forall j :: j != k ==> At(c', j) == At(c, j))
            && (stream == None ==> c' == c)
            && (stream.Some? ==>
                  && At(c, k).body == stream
                  && At(c', k) == At(c, k).(entry := Some(e.(refs := e.refs + 1))))
  {
    var _ := IndexFound(c.lru, k);
    var e := Index(c.lru)[k];
    UpdateKeeps(c, o.faults, maxSize, e.(refs := e.refs + 1));
  }

  lemma GetMetadataEffect(c: Cache, o: Outcome, maxSize: nat, k: string)
    requires Unique(c.lru)
    ensures var (c', reply) := DoGetMetadata(c, o, k);
            && Unique(c'.lru) && Bytes(c'.lru) <= Bytes(c.lru)
            && (forall j :: j != k ==> At(c', j) == At(c, j))
            && (if reply.ok then
                  && At(c, k).row.Some?
                  && At(c', k) == At(c, k).(row := Some(At(c, k).row.value.(lastAccessed := o.now)))
                else At(c', k) == At(c, k))
  {
    GetKeeps(c, k);
    ReadRowKeeps(CacheSpec.Get(c, ACCEPT, k).0, o, k);
    assert At(CacheSpec.Get(c, ACCEPT, k).0, k) == At(c, k);
  }

  lemma PutMetadataEffect(c: Cache, o: Outcome, maxSize: nat, k: string, meta: Metadata)
    requires Unique(c.lru)
    ensures var (c', reply) := DoPutMetadata(c, o, k, meta);
            && Unique(c'.lru) && Bytes(c'.lru) <= Bytes(c.lru)
            && (forall j :: j != meta.key ==> At(c', j) == At(c, j))
            && (if reply.ok then RefsOf(At(c, k)) == 0 && At(c, k).entry.Some?
                                 && At(c', meta.key) == At(c, meta.key).(row := Some(Row(meta, o.now)))
                else At(c', meta.key) == At(c, meta.key))
  {
    GetKeeps(c, k);
    assert At(CacheSpec.Get(c, ACCEPT, k).0, meta.key) == At(c, meta.key);
  }

  /**
   A look-up of the data, with or without the metadata: one more reader of the stored body, or nothing; the row is
   stamped if it was read, which `stamps` says.
   */
  predicate Opened(was: Slot, now: Slot, reply: Reply, stamps: bool, at: int) {
    && now.body == was.body
    && (if stamps then was.row.Some? && now.row == Some(was.row.value.(lastAccessed := at)) else now.row == was.row)
    && if reply.ok then
         && was.entry.Some? && !was.entry.value.reserved && was.body.Some? && reply.stream == was.body
         && now.entry == Some(was.entry.value.(refs := was.entry.value.refs + 1))
       else now.entry == was.entry
  }

  lemma GetDataEffect(c: Cache, o: Outcome, maxSize: nat, k: string)
    requires Unique(c.lru)
    ensures var (c', reply) := DoGetData(c, o, maxSize, k);
            && Unique(c'.lru) && Bytes(c'.lru) <= Bytes(c.lru)
            && (forall j :: j != k ==> At(c', j) == At(c, j))
            && Opened(At(c, k), At(c', k), reply, false, o.now)
  {
    var (c1, found) := CacheSpec.Get(c, ACCEPT, k);
    GetKeeps(c, k);
    assert At(c1, k) == At(c, k);
    if found.Some? && !found.value.reserved {
      OpenEffect(c1, o, maxSize, k);
    }
  }

  lemma GetEffect(c: Cache, o: Outcome, maxSize: nat, k: string)
    requires Unique(c.lru)
    ensures var (c', reply) := DoGet(c, o, maxSize, k);
            && Unique(c'.lru) && Bytes(c'.lru) <= Bytes(c.lru)
            && (forall j :: j != k ==> At(c', j) == At(c, j))
            && Opened(At(c, k), At(c', k), reply, DoGetMetadata(c, o, k).1.ok, o.now)
            && (reply.ok ==> DoGetMetadata(c, o, k).1.ok)
  {
    var (c1, found) := CacheSpec.Get(c, ACCEPT, k);
    GetKeeps(c, k);
    assert At(c1, k) == At(c, k);
    var (c2, meta) := ReadRow(c1, o, k);
    ReadRowKeeps(c1, o, k);
    assert At(c2, k).entry == At(c1, k).entry;
    if found.Some? && !found.value.reserved && meta.Some? {
      OpenEffect(c2, o, maxSize, k);
    }
  }

  /** A release takes one reader away, and carries out a deferred removal when it was the last one. */
  lemma ReleaseEffect(c: Cache, o: Outcome, maxSize: nat, k: string)
    requires Unique(c.lru)
    ensures var c' := DoReleaseData(c, o, maxSize, k);
            var was, now := At(c, k), At(c', k);
            && Unique(c'.lru) && Bytes(c'.lru) <= Bytes(c.lru)
            && (forall j :: j != k ==> At(c', j) == At(c, j))
            && (RefsOf(was) == 0 ==> now == was)
            && (RefsOf(was) > 0 ==>
                  var left := was.(entry := Some(was.entry.value.(refs := was.entry.value.refs - 1)));
                  if was.entry.value.refs > 1 || !was.entry.value.reserved then now == left
                  else AfterRemoval(left, now)
                       && (FileDeletionsSucceed(o.faults) ==> now == left || now == GONE)
                       && (DeletionsSucceed(o.faults) && was.row.Some? ==> now == GONE))
  {
    var (c1, found) := CacheSpec.Get(c, ACCEPT, k);
    GetKeeps(c, k);
    assert At(c1, k) == At(c, k);
    if found.Some? && found.value.refs > 0 {
      UpdateKeeps(c1, o.faults, maxSize, found.value.(refs := found.value.refs - 1));
    }
  }

  lemma OpeningEffect(c: Cache, call: Call, o: Outcome, maxSize: nat, k: string)
    requires Unique(c.lru) && (call.GetData? || call.Get?)
    ensures var (c', reply) := Do(c, call, o, maxSize);
            && Unique(c'.lru)
            && Effect(call, reply, k, At(c, k), At(c', k))
  {
    if call.Get? {
      GetEffect(c, o, maxSize, call.key);
    } else {
      GetDataEffect(c, o, maxSize, call.key);
    }
  }

  lemma ClosingEffect(c: Cache, call: Call, o: Outcome, maxSize: nat, k: string)
    requires Unique(c.lru) && (call.Remove? || call.ReleaseData?)
    ensures var (c', reply) := Do(c, call, o, maxSize);
            && Unique(c'.lru)
            && Effect(call, reply, k, At(c, k), At(c', k))
  {
    if call.Remove? {
      RemoveKeeps(c, o.faults, call.key);
    } else {
      ReleaseEffect(c, o, maxSize, call.key);
    }
  }

  /**
   One call, whatever fails during it: entries being read keep record and body, except that the key the call
   is about gains or loses exactly the reader the call stands for, or is marked for later removal.
   */
  lemma DoEffect(c: Cache, call: Call, o: Outcome, maxSize: nat, k: string)
    requires Unique(c.lru)
    requires call.Purge? ==> !call.mayDeleteIfBusy
    ensures var (c', reply) := Do(c, call, o, maxSize);
            && Unique(c'.lru)
            && Effect(call, reply, k, At(c, k), At(c', k))
  {
    match call
    case GetMetadata(j) => GetMetadataEffect(c, o, maxSize, j);
    case PutMetadata(j, meta) => PutMetadataEffect(c, o, maxSize, j, meta);
    case Put(j, meta, body) => PutEffect(c, o, maxSize, j, meta, body);
    case Purge(_) => PurgeEffect(c, o);
    case _ =>
      if call.GetData? || call.Get? {
        OpeningEffect(c, call, o, maxSize, k);
      } else {
        ClosingEffect(c, call, o, maxSize, k);
      }
  }

  lemma PurgeEffect(c: Cache, o: Outcome)
    requires Unique(c.lru)
    ensures var c' := DoPurge(c, o, false).0;
            && Unique(c'.lru)
            && (forall j :: Calm(At(c, j), At(c', j)))
  {
    ClearEffect(c, o.faults, false);
    var (c1, ok) := Clear(c, o.faults, false);
    var c' := DoPurge(c, o, false).0;
    forall j ensures Calm(At(c, j), At(c', j)) {
      assert AfterRemoval(At(c, j), At(c1, j));
      assert RefsOf(At(c, j)) > 0 ==> At(c1, j) == At(c, j);
      assert At(c', j).entry == At(c1, j).entry && At(c', j).body == At(c1, j).body;
    }
  }

  lemma PutEffect(c: Cache, o: Outcome, maxSize: nat, k: string, meta: Metadata, body: Body)
    requires Unique(c.lru)
    ensures var (c', reply) := DoPut(c, o, maxSize, k, meta, body);
            && Unique(c'.lru)
            && (forall j :: Calm(At(c, j), At(c', j)))
  {
    var (c1, free) := Displace(c, o, k);
    DisplaceKeeps(c, o, k);
    if free {
      MakeSpaceCalm(c1, o.faults, maxSize, meta.bodySize);
      var (c2, roomy) := MakeSpace(c1, o.faults, ACCEPT, maxSize, meta.bodySize, "");
      assert Calm(At(c1, k), At(c2, k));
      if roomy {
        StoreCalm(c2, o, maxSize, k, meta, body);
      }
      var c' := DoPut(c, o, maxSize, k, meta, body).0;
      forall j ensures Calm(At(c, j), At(c', j)) {
        assert Calm(At(c1, j), At(c2, j));
      }
    }
  }

  /** Rebuilding the index creates no reader. */
  lemma {:induction false} LoadEffect(c: Cache, f: Faults, maxSize: nat, rows: map<string, Row>, order: seq<string>)
    requires Unique(c.lru) && forall k :: RefsOf(At(c, k)) == 0
    ensures var c' := Load(c, f, maxSize, rows, order);
            Unique(c'.lru) && forall k :: RefsOf(At(c', k)) == 0
    decreases |order|
  {
    if order != [] {
      var e := Entry(order[0], StoredSize(rows, order[0]), false, 0);
      var roomy := MakeSpace(c, f, ACCEPT, maxSize, e.size, "").0;
      MakeSpaceCalm(c, f, maxSize, e.size);
      assert forall k :: RefsOf(At(roomy, k)) == 0 by {
        forall k ensures RefsOf(At(roomy, k)) == 0 {
          assert Calm(At(c, k), At(roomy, k));
        }
      }
      AddOrUpdateEffect(roomy, f, ACCEPT, maxSize, e);
      var c1 := OnEnumerate(c, f, maxSize, order[0], e.size);
      if c1.lru != [] && c1.lru[0] == e {
        IndexAt(c1.lru, 0);
      }
      assert forall k :: RefsOf(At(c1, k)) == 0;
      LoadEffect(c1, f, maxSize, rows, order[1..]);
    }
  }

  // ---- runs ----

  /** The cache together with the streams handed out and not yet released, by key: the bodies they were opened on. */
  datatype World = World(st: State, streams: map<string, seq<Body>>)

  /** A call; a `releaseData` closes the stream at position `closes` among those open on its key. */
  datatype Event = Event(call: Call, o: Outcome, closes: nat)

  function OpenOn(w: World, k: string): seq<Body> {
    if k in w.streams then w.streams[k] else []
  }

  /** No forced purge, and every release matches one stream that is still open. */
  predicate Legal(w: World, e: Event) {
    match e.call
    case Purge(busy) => !busy
    case ReleaseData(k) => e.closes < |OpenOn(w, k)|
    case _ => true
  }

  /** The open streams after a call and its reply. */
  function Streams(w: World, e: Event, reply: Reply): map<string, seq<Body>> {
    match e.call
    case GetData(k) => if reply.stream.Some? then w.streams[k := OpenOn(w, k) + [reply.stream.value]] else w.streams
    case Get(k) => if reply.stream.Some? then w.streams[k := OpenOn(w, k) + [reply.stream.value]] else w.streams
    case ReleaseData(k) =>
      var open := OpenOn(w, k);
      if e.closes < |open| then w.streams[k := open[..e.closes] + open[e.closes + 1..]] else w.streams
    case _ => w.streams
  }

  function Advance(w: World, e: Event, maxSize: nat): World {
    var (st, reply) := Step(w.st, e.call, e.o, maxSize);
    World(st, Streams(w, e, reply))
  }

  ghost predicate Run(w: World, es: seq<Event>, maxSize: nat, w': World)
    decreases |es|
  {
    if es == [] then w' == w
    else Legal(w, es[0]) && Run(Advance(w, es[0], maxSize), es[1..], maxSize, w')
  }

  /**
   The index agrees with the open streams: the reader count of every entry is the number of streams open on its
   key, and each of them was opened on the body the file still holds.
   */
  ghost predicate Tracks(w: World) {
    && Unique(w.st.cache.lru)
    && (!w.st.ready ==> forall k :: RefsOf(At(w.st.cache, k)) == 0)
    && (forall k :: RefsOf(At(w.st.cache, k)) == |OpenOn(w, k)|)
    && (forall k, i :: 0 <= i < |OpenOn(w, k)| ==> At(w.st.cache, k).body == Some(OpenOn(w, k)[i]))
  }

  /** Before the first call nothing is in the index and no stream is open, whatever the disk holds. */
  lemma InitialTracks(d: Disk)
    ensures Tracks(World(State(false, Cache([], d)), map[]))
  {
    var w := World(State(false, Cache([], d)), map[]);
    forall k ensures RefsOf(At(w.st.cache, k)) == 0 && OpenOn(w, k) == [] {
    }
  }

  lemma InitializeTracks(w: World, o: Outcome, maxSize: nat)
    requires Tracks(w)
    ensures Tracks(w.(st := Initialize(w.st, o, maxSize).0))
  {
    if !w.st.ready && o.directory {
      var c := w.st.cache;
      LoadEffect(c, o.faults, maxSize, c.disk.rows, Listing(o));
      var w' := w.(st := Initialize(w.st, o, maxSize).0);
      forall k ensures OpenOn(w', k) == [] {
        assert |OpenOn(w, k)| == RefsOf(At(c, k)) == 0;
      }
    }
  }

  /** Every legal call keeps the agreement, whatever fails during it. */
  lemma StepTracks(w: World, e: Event, maxSize: nat)
    requires Tracks(w) && Legal(w, e)
    ensures Tracks(Advance(w, e, maxSize))
  {
    var (ready, ok) := if e.call.ReleaseData? then (w.st, true) else Initialize(w.st, e.o, maxSize);
    var w1 := w.(st := ready);
    InitializeTracks(w, e.o, maxSize);
    assert Tracks(w1);
    if ok {
      DoTracks(w1, e, maxSize);
    } else {
      assert Advance(w, e, maxSize) == w1;
    }
  }

  /** The call itself, on the index as it is. */
  lemma DoTracks(w: World, e: Event, maxSize: nat)
    requires Tracks(w) && Legal(w, e)
    ensures var (c, reply) := Do(w.st.cache, e.call, Reach(e.o, w.st.ready), maxSize);
            Tracks(World(w.st.(cache := c), Streams(w, e, reply)))
  {
    var o := Reach(e.o, w.st.ready);
    var (c, reply) := Do(w.st.cache, e.call, o, maxSize);
    var w' := World(w.st.(cache := c), Streams(w, e, reply));
    forall k
      ensures RefsOf(At(c, k)) == |OpenOn(w', k)|
      ensures forall i :: 0 <= i < |OpenOn(w', k)| ==> At(c, k).body == Some(OpenOn(w', k)[i])
    {
      DoEffect(w.st.cache, e.call, o, maxSize, k);
      TrackedKey(w, e, o, maxSize, k);
    }
    DoEffect(w.st.cache, e.call, o, maxSize, "");
    if !w.st.ready {
      NothingOpened(w, e, o, maxSize);
      assert forall k :: RefsOf(At(c, k)) == |OpenOn(w', k)| == 0;
    }
  }

  /** Before the index has been rebuilt nobody comes to read. */
  lemma NothingOpened(w: World, e: Event, o: Outcome, maxSize: nat)
    requires Tracks(w) && Legal(w, e) && !w.st.ready && !o.opens
    ensures var (c, reply) := Do(w.st.cache, e.call, o, maxSize);
            forall k :: |OpenOn(World(w.st.(cache := c), Streams(w, e, reply)), k)| == 0
  {
    var (c, reply) := Do(w.st.cache, e.call, o, maxSize);
    forall k ensures OpenOn(w, k) == [] {
      assert |OpenOn(w, k)| == RefsOf(At(w.st.cache, k)) == 0;
    }
    assert reply.stream == None;
    forall k ensures OpenOn(World(w.st.(cache := c), Streams(w, e, reply)), k) == [] {
      assert OpenOn(w, k) == [];
    }
  }

  lemma TrackedKey(w: World, e: Event, o: Outcome, maxSize: nat, k: string)
    requires Tracks(w) && Legal(w, e)
    requires var (c, reply) := Do(w.st.cache, e.call, o, maxSize);
             Effect(e.call, reply, k, At(w.st.cache, k), At(c, k))
    ensures var (c, reply) := Do(w.st.cache, e.call, o, maxSize);
            var w' := World(w.st.(cache := c), Streams(w, e, reply));
            && RefsOf(At(c, k)) == |OpenOn(w', k)|
            && (forall i :: 0 <= i < |OpenOn(w', k)| ==> At(c, k).body == Some(OpenOn(w', k)[i]))
  {
    assert RefsOf(At(w.st.cache, k)) == |OpenOn(w, k)|;
  }

  /**
   The reader theorem: after any run of legal calls, under any failures, reader counts equal the open streams, and
   every open stream's body is still the one in the file: no body with an open reader was deleted or replaced.
   */
  lemma {:induction false} RunTracks(w: World, es: seq<Event>, maxSize: nat, w': World)
    requires Tracks(w) && Run(w, es, maxSize, w')
    ensures Tracks(w')
    decreases |es|
  {
    if es != [] {
      StepTracks(w, es[0], maxSize);
      RunTracks(Advance(w, es[0], maxSize), es[1..], maxSize, w');
    }
  }
}
