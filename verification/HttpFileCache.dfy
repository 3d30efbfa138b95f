/** The file cache as a class driving the index and the storage, one method per public call. */
module HttpFileCache {
  import opened Options
  import opened LruList
  import opened HttpLru
  import CacheSpec
  import Spec = FileCacheSpec

  class FileCache {
    const maxSize: nat
    const storage: CacheStorage
    const index: HttpLruCacheStrategy
    var cacheInitialized: bool

    ghost predicate Valid()
      reads this, storage, index, index.lruList
    {
      index.listener == storage && index.maxSize == maxSize && index.Valid() && storage.answers == Spec.ACCEPT
    }

    ghost function State(): Spec.State
      reads this, index, index.lruList, index.listener
    {
      Spec.State(cacheInitialized, index.Cache())
    }

    constructor (maxSize: nat, storage: CacheStorage)
      requires storage.answers == Spec.ACCEPT
      ensures Valid()
      ensures State() == Spec.State(false, CacheSpec.Cache([], storage.Contents()))
    {
      this.maxSize, this.storage, this.cacheInitialized := maxSize, storage, false;
      this.index := new HttpLruCacheStrategy(maxSize, storage);
    }

    method OnEnumerate(key: string, responseBodySize: nat) returns (ok: bool)
      requires Valid()
      modifies index, storage`rows, storage`files, storage`deletions
      ensures Valid()
      ensures index.Cache() == Spec.OnEnumerate(old(index.Cache()), storage.faults, maxSize, key, responseBodySize)
      ensures forall o :: o in index.lruList ==> o in old(index.lruList) || fresh(o)
    {
      CacheSpec.MakeSpaceIff(index.Cache(), storage.faults, Spec.ACCEPT, maxSize, responseBodySize, "");
      ok := index.MakeSpaceFor(responseBodySize, "");
      if ok {
        var info := new HttpCacheInfo(key, responseBodySize);
        var _ := index.Add(key, info);
      }
    }

    /** Rebuilds the index unless this was done before; true when the call goes on. */
    method InitializeCache(o: Spec.Outcome) returns (ok: bool)
      requires Valid() && storage.faults == o.faults
      modifies this`cacheInitialized, index, storage`rows, storage`files, storage`deletions
      ensures Valid()
      ensures (State(), ok) == Spec.Initialize(old(State()), o, maxSize)
      ensures forall x :: x in index.lruList ==> x in old(index.lruList) || fresh(x)
    {
      if cacheInitialized {
        return true;
      }
      if !o.directory {
        return true;
      }
      LoadRows(Spec.Listing(o), o.faults, index.Cache());
      if !o.loads {
        return false;
      }
      cacheInitialized := true;
      ok := true;
    }

    /** Lists the table, or the first rows of it, into the index. */
    method LoadRows(order: seq<string>, ghost f: CacheSpec.Faults, ghost c: CacheSpec.Cache)
      requires Valid() && storage.faults == f && c == index.Cache()
      modifies index, storage`rows, storage`files, storage`deletions
      ensures Valid()
      ensures index.Cache() == Spec.Load(c, f, maxSize, c.disk.rows, order)
      ensures forall x :: x in index.lruList ==> x in old(index.lruList) || fresh(x)
    {
      var rows := storage.rows;
      for i := 0 to |order|
        invariant Valid()
        invariant Spec.Load(index.Cache(), f, maxSize, rows, order[i..]) == Spec.Load(c, f, maxSize, rows, order)
        invariant forall x :: x in index.lruList ==> x in old(index.lruList) || fresh(x)
      {
        assert order[i..][0] == order[i] && order[i..][1..] == order[i + 1..];
        LoadRow(order[i], rows, index.Cache(), f, order[i..]);
      }
    }

    method LoadRow(key: string, rows: map<string, CacheSpec.Row>, ghost c: CacheSpec.Cache, ghost f: CacheSpec.Faults,
                   ghost left: seq<string>)
      requires Valid() && storage.faults == f && c == index.Cache() && left != [] && left[0] == key
      modifies index, storage`rows, storage`files, storage`deletions
      ensures Valid()
      ensures Spec.Load(index.Cache(), f, maxSize, rows, left[1..]) == Spec.Load(c, f, maxSize, rows, left)
      ensures forall x :: x in index.lruList ==> x in old(index.lruList) || fresh(x)
    {
      var _ := OnEnumerate(key, Spec.StoredSize(rows, key));
    }

    /** The start of a call: the environment settles its outcomes, then the index is rebuilt if it has not been. */
    method Begin(o: Spec.Outcome) returns (ready: bool)
      requires Valid()
      modifies this`cacheInitialized, index, storage
      ensures Valid() && storage.faults == o.faults
      ensures (State(), ready) == Spec.Initialize(old(State()), o, maxSize)
      ensures forall x :: x in index.lruList ==> x in old(index.lruList) || fresh(x)
    {
      storage.faults := o.faults;
      ready := InitializeCache(o);
    }

    method ReadRow(key: string, o: Spec.Outcome) returns (metadata: Option<CacheSpec.Metadata>)
      requires Valid()
      modifies storage`rows
      ensures Valid()
      ensures (index.Cache(), metadata) == Spec.ReadRow(old(index.Cache()), o, key)
      ensures metadata.Some? <==> o.selects && o.touches && key in old(storage.rows)
      ensures storage.rows == if metadata.None? then old(storage.rows) else
        old(storage.rows)[key := CacheSpec.Row(old(storage.rows)[key].meta, o.now)]
    {
      if !o.selects || key !in storage.rows {
        return None;
      }
      if !o.touches {
        return None;
      }
      metadata := Some(storage.rows[key].meta.(key := key));
      storage.rows := storage.rows[key := storage.rows[key].(lastAccessed := o.now)];
    }

    method GetMetadata(key: string, o: Spec.Outcome) returns (reply: Spec.Reply)
      requires Valid()
      modifies this`cacheInitialized, index, storage
      ensures Valid()
      ensures (State(), reply) == Spec.Step(old(State()), Spec.GetMetadata(key), o, maxSize)
    {
      var ready := Begin(o);
      if ready {
        reply := GetMetadataReady(key, Spec.Reach(o, cacheInitialized));
      } else {
        reply := Spec.NO;
      }
    }

    method GetMetadataReady(key: string, o: Spec.Outcome) returns (reply: Spec.Reply)
      requires Valid() && storage.faults == o.faults
      modifies index, storage`rows, storage`files, storage`deletions
      ensures Valid()
      ensures (index.Cache(), reply) == Spec.DoGetMetadata(old(index.Cache()), o, key)
    {
      var info := index.Get(key);
      if info == null || info.reservedRemove {
        return Spec.NO;
      }
      var metadata := ReadRow(key, o);
      if metadata == None {
        return Spec.NO;
      }
      reply := Spec.Reply(true, metadata, None);
    }

    /** Opens the body file and records one more reader, on the copy of the entry that was looked up. */
    method OpenStream(key: string, info: HttpCacheInfo, o: Spec.Outcome, ghost c: CacheSpec.Cache, ghost e: Entry)
      returns (stream: Option<CacheSpec.Body>)
      requires Valid() && storage.faults == o.faults && c == index.Cache()
      requires info.key == key && info !in index.lruList && info.Value() == e
      modifies index, storage`rows, storage`files, storage`deletions, info
      ensures Valid()
      ensures (index.Cache(), stream) == Spec.Open(c, o, maxSize, e)
    {
      if key !in storage.files || !o.opens {
        return None;
      }
      stream := Some(storage.files[key]);
      info.AddDataRef();
      Updated(key, info, c, e.(refs := e.refs + 1));
    }

    /** Hands an entry that was looked up and changed back to the index. */
    method Updated(key: string, info: HttpCacheInfo, ghost c: CacheSpec.Cache, ghost e: Entry)
      requires Valid() && c == index.Cache()
      requires info.key == key && info !in index.lruList && info.Value() == e
      modifies index, storage`rows, storage`files, storage`deletions
      ensures Valid()
      ensures index.Cache() == CacheSpec.Update(c, storage.faults, Spec.ACCEPT, maxSize, e).0
    {
      var _ := index.Update(key, info);
    }

    method GetData(key: string, o: Spec.Outcome) returns (reply: Spec.Reply)
      requires Valid()
      modifies this`cacheInitialized, index, storage
      ensures Valid()
      ensures (State(), reply) == Spec.Step(old(State()), Spec.GetData(key), o, maxSize)
    {
      var ready := Begin(o);
      if ready {
        reply := GetDataReady(key, Spec.Reach(o, cacheInitialized));
      } else {
        reply := Spec.NO;
      }
    }

    method GetDataReady(key: string, o: Spec.Outcome) returns (reply: Spec.Reply)
      requires Valid() && storage.faults == o.faults
      modifies index, storage`rows, storage`files, storage`deletions
      ensures Valid()
      ensures (index.Cache(), reply) == Spec.DoGetData(old(index.Cache()), o, maxSize, key)
    {
      var info := index.Get(key);
      if info == null || info.reservedRemove {
        return Spec.NO;
      }
      KeyOfEntry(old(index.Cache()), key);
      var stream := OpenStream(key, info, o, index.Cache(), info.Value());
      reply := if stream == None then Spec.NO else Spec.Reply(true, None, stream);
    }

    method Get(key: string, o: Spec.Outcome) returns (reply: Spec.Reply)
      requires Valid()
      modifies this`cacheInitialized, index, storage
      ensures Valid()
      ensures (State(), reply) == Spec.Step(old(State()), Spec.Get(key), o, maxSize)
    {
      var ready := Begin(o);
      if ready {
        reply := GetReady(key, Spec.Reach(o, cacheInitialized));
      } else {
        reply := Spec.NO;
      }
    }

    method GetReady(key: string, o: Spec.Outcome) returns (reply: Spec.Reply)
      requires Valid() && storage.faults == o.faults
      modifies index, storage`rows, storage`files, storage`deletions
      ensures Valid()
      ensures (index.Cache(), reply) == Spec.DoGet(old(index.Cache()), o, maxSize, key)
    {
      var info := index.Get(key);
      if info == null || info.reservedRemove {
        return Spec.NO;
      }
      KeyOfEntry(old(index.Cache()), key);
      var metadata := ReadRow(key, o);
      if metadata == None {
        return Spec.NO;
      }
      var stream := OpenStream(key, info, o, index.Cache(), info.Value());
      reply := if stream == None then Spec.NO else Spec.Reply(true, metadata, stream);
    }

    /** Entries carry the key they are indexed by. */
    lemma KeyOfEntry(c: CacheSpec.Cache, k: string)
      ensures k in Index(c.lru) ==> Index(c.lru)[k].key == k
    {
      if k in Index(c.lru) {
        var _ := IndexFound(c.lru, k);
      }
    }

    lemma Idle(key: string)
      requires Valid()
      requires key in Index(index.Lru()) && Index(index.Lru())[key].refs == 0
      ensures !index.Pinned(key)
    {
      LinkedNode(index.lruList, index.lruListMap, index.totalSize, key);
    }

    method PutMetadata(key: string, metadata: CacheSpec.Metadata, o: Spec.Outcome) returns (reply: Spec.Reply)
      requires Valid()
      modifies this`cacheInitialized, index, storage
      ensures Valid()
      ensures (State(), reply) == Spec.Step(old(State()), Spec.PutMetadata(key, metadata), o, maxSize)
    {
      var ready := Begin(o);
      if ready {
        reply := PutMetadataReady(key, metadata, Spec.Reach(o, cacheInitialized));
      } else {
        reply := Spec.NO;
      }
    }

    method PutMetadataReady(key: string, metadata: CacheSpec.Metadata, o: Spec.Outcome) returns (reply: Spec.Reply)
      requires Valid() && storage.faults == o.faults
      modifies index, storage`rows, storage`files, storage`deletions
      ensures Valid()
      ensures (index.Cache(), reply) == Spec.DoPutMetadata(old(index.Cache()), o, key, metadata)
    {
      var info := index.Get(key);
      if info == null || info.reservedRemove || info.dataRefCount != 0 {
        return Spec.NO;
      }
      if !o.writes {
        return Spec.NO;
      }
      storage.rows := storage.rows[metadata.key := CacheSpec.Row(metadata, o.now)];
      reply := Spec.YES;
    }

    method Put(key: string, metadata: CacheSpec.Metadata, body: CacheSpec.Body, o: Spec.Outcome)
      returns (reply: Spec.Reply)
      requires Valid()
      modifies this`cacheInitialized, index, storage
      ensures Valid()
      ensures (State(), reply) == Spec.Step(old(State()), Spec.Put(key, metadata, body), o, maxSize)
    {
      var ready := Begin(o);
      if ready {
        reply := PutReady(key, metadata, body, Spec.Reach(o, cacheInitialized));
      } else {
        reply := Spec.NO;
      }
    }

    method PutReady(key: string, metadata: CacheSpec.Metadata, body: CacheSpec.Body, o: Spec.Outcome)
      returns (reply: Spec.Reply)
      requires Valid() && storage.faults == o.faults
      modifies index, storage
      ensures Valid()
      ensures (index.Cache(), reply) == Spec.DoPut(old(index.Cache()), o, maxSize, key, metadata, body)
    {
      var free := Displace(key, o, index.Cache());
      if !free {
        return Spec.NO;
      }
      var roomy := index.MakeSpaceFor(metadata.bodySize, "");
      if !roomy {
        return Spec.NO;
      }
      reply := MoveIn(key, metadata, body, o, index.Cache());
    }

    /** The first half of `put`: the entry about to be replaced goes, unless it is being read or due for removal. */
    method Displace(key: string, o: Spec.Outcome, ghost c: CacheSpec.Cache) returns (free: bool)
      requires Valid() && storage.faults == o.faults && c == index.Cache()
      modifies index, storage`rows, storage`files, storage`deletions
      ensures Valid()
      ensures (index.Cache(), free) == Spec.Displace(c, o, key)
      ensures forall x :: x in index.lruList ==> x in old(index.lruList) || fresh(x)
    {
      var oldInfo := index.Get(key);
      if oldInfo == null {
        return true;
      }
      if oldInfo.reservedRemove || oldInfo.dataRefCount != 0 {
        return false;
      }
      var _ := IndexFound(c.lru, key);
      IndexToFront(c.lru, Index(c.lru)[key]);
      RemoveIdle(key, index.Cache());
      free := true;
    }

    /** Removes an entry that nobody reads. */
    method RemoveIdle(key: string, ghost c: CacheSpec.Cache)
      requires Valid() && c == index.Cache() && key in Index(c.lru) && Index(c.lru)[key].refs == 0
      modifies index, storage`rows, storage`files, storage`deletions
      ensures Valid()
      ensures index.Cache() == CacheSpec.Remove(c, storage.faults, Spec.ACCEPT, key).0
      ensures forall x :: x in index.lruList ==> x in old(index.lruList) || fresh(x)
    {
      Idle(key);
      var _ := index.Remove(key);
    }

    /** The second half of `put`: body file first, then the row, and only then the index. */
    method MoveIn(key: string, metadata: CacheSpec.Metadata, body: CacheSpec.Body, o: Spec.Outcome,
                  ghost c: CacheSpec.Cache)
      returns (reply: Spec.Reply)
      requires Valid() && storage.faults == o.faults && c == index.Cache()
      modifies index, storage`rows, storage`files, storage`deletions
      ensures Valid()
      ensures (index.Cache(), reply) == Spec.Store(c, o, maxSize, key, metadata, body)
    {
      if !o.moves {
        if o.losesTarget {
          storage.files := storage.files - {key};
        }
        return Spec.NO;
      }
      storage.files := storage.files[key := body];
      if !o.writes {
        RemoveFile(key, index.Cache());
        return Spec.NO;
      }
      storage.rows := storage.rows[metadata.key := CacheSpec.Row(metadata, o.now)];
      Enter(key, metadata.bodySize, index.Cache());
      reply := Spec.YES;
    }

    /** Tries to remove the body file of a key. */
    method RemoveFile(key: string, ghost c: CacheSpec.Cache)
      requires Valid() && c == index.Cache()
      modifies storage`files, storage`deletions
      ensures Valid()
      ensures index.Cache() == Spec.FileRemoved(c, storage.faults, key)
    {
      var attempt := storage.deletions;
      storage.deletions := attempt + 1;
      if storage.faults.fileDeleted(attempt) {
        storage.files := storage.files - {key};
      }
    }

    method Enter(key: string, size: nat, ghost c: CacheSpec.Cache)
      requires Valid() && c == index.Cache()
      modifies index, storage`rows, storage`files, storage`deletions
      ensures Valid()
      ensures index.Cache()
           == CacheSpec.Update(c, storage.faults, Spec.ACCEPT, maxSize, Entry(key, size, false, 0)).0
    {
      var info := new HttpCacheInfo(key, size);
      Updated(key, info, c, Entry(key, size, false, 0));
    }

    method Remove(key: string, o: Spec.Outcome) returns (reply: Spec.Reply)
      requires Valid()
      modifies this`cacheInitialized, index, storage, index.lruList
      ensures Valid()
      ensures (State(), reply) == Spec.Step(old(State()), Spec.Remove(key), o, maxSize)
    {
      ghost var st := State();
      var ready := Begin(o);
      if ready {
        Listed(key);
        reply := RemoveReady(key, o, st, State());
      } else {
        reply := Spec.NO;
      }
    }

    lemma RemoveIs(st: Spec.State, o: Spec.Outcome, key: string, st1: Spec.State)
      requires Spec.Initialize(st, o, maxSize) == (st1, true)
      ensures var (c, ok) := CacheSpec.Remove(st1.cache, o.faults, Spec.ACCEPT, key);
              Spec.Step(st, Spec.Remove(key), o, maxSize) == (st1.(cache := c), Spec.Reply(ok, None, None))
    {
    }

    lemma Listed(key: string)
      requires Valid()
      ensures index.Pinned(key) ==> index.lruListMap[key] in index.lruList
    {
    }

    method RemoveReady(key: string, o: Spec.Outcome, ghost st: Spec.State, ghost st1: Spec.State)
      returns (reply: Spec.Reply)
      requires Valid() && storage.faults == o.faults && Spec.Initialize(st, o, maxSize) == (st1, true) && st1 == State()
      modifies index, storage`rows, storage`files, storage`deletions
      modifies if index.Pinned(key) then {index.lruListMap[key]} else {}
      ensures Valid()
      ensures (State(), reply) == Spec.Step(st, Spec.Remove(key), o, maxSize)
    {
      var ok := index.Remove(key);
      reply := Spec.Reply(ok, None, None);
      RemoveIs(st, o, key, st1);
    }

    /** One reader is done; it does not wait for the index to be rebuilt. */
    method ReleaseData(key: string, o: Spec.Outcome)
      requires Valid()
      modifies index, storage
      ensures Valid()
      ensures State() == Spec.Step(old(State()), Spec.ReleaseData(key), o, maxSize).0
    {
      storage.faults := o.faults;
      ReleaseDataReady(key, Spec.Reach(o, cacheInitialized), index.Cache());
    }

    method ReleaseDataReady(key: string, o: Spec.Outcome, ghost c: CacheSpec.Cache)
      requires Valid() && storage.faults == o.faults && c == index.Cache()
      modifies index, storage`rows, storage`files, storage`deletions
      ensures Valid()
      ensures index.Cache() == Spec.DoReleaseData(c, o, maxSize, key)
    {
      var info := index.Get(key);
      if info == null {
        return;
      }
      KeyOfEntry(c, key);
      ghost var c1, e := index.Cache(), info.Value();
      assert CacheSpec.Get(c, Spec.ACCEPT, key) == (c1, Some(e));
      if info.dataRefCount != 0 {
        CloseReader(key, info, c1, e);
        ReleaseIs(c, o, key, c1, e);
      }
    }

    lemma ReleaseIs(c: CacheSpec.Cache, o: Spec.Outcome, key: string, c1: CacheSpec.Cache, e: Entry)
      requires CacheSpec.Get(c, Spec.ACCEPT, key) == (c1, Some(e)) && e.refs > 0
      ensures Spec.DoReleaseData(c, o, maxSize, key)
           == CacheSpec.Update(c1, o.faults, Spec.ACCEPT, maxSize, e.(refs := e.refs - 1)).0
    {
    }

    method CloseReader(key: string, info: HttpCacheInfo, ghost c: CacheSpec.Cache, ghost e: Entry)
      requires Valid() && c == index.Cache()
      requires info.key == key && info !in index.lruList && info.Value() == e && e.refs > 0
      modifies index, storage`rows, storage`files, storage`deletions, info
      ensures Valid()
      ensures index.Cache() == CacheSpec.Update(c, storage.faults, Spec.ACCEPT, maxSize, e.(refs := e.refs - 1)).0
    {
      info.ReleaseDataRef();
      Updated(key, info, c, e.(refs := e.refs - 1));
    }

    method Purge(mayDeleteIfBusy: bool, o: Spec.Outcome) returns (reply: Spec.Reply)
      requires Valid()
      modifies this`cacheInitialized, index, storage
      ensures Valid()
      ensures (State(), reply) == Spec.Step(old(State()), Spec.Purge(mayDeleteIfBusy), o, maxSize)
    {
      var ready := Begin(o);
      if ready {
        reply := PurgeReady(mayDeleteIfBusy, Spec.Reach(o, cacheInitialized));
      } else {
        reply := Spec.NO;
      }
    }

    method DeleteCacheFile()
      requires Valid()
      modifies storage`rows
      ensures Valid()
      ensures index.Cache() == Spec.TableDropped(old(index.Cache()))
    {
      storage.rows := map[];
    }

    method PurgeReady(mayDeleteIfBusy: bool, o: Spec.Outcome) returns (reply: Spec.Reply)
      requires Valid() && storage.faults == o.faults
      modifies index, storage
      ensures Valid()
      ensures (index.Cache(), reply) == Spec.DoPurge(old(index.Cache()), o, mayDeleteIfBusy)
    {
      var ok := index.Clear(mayDeleteIfBusy);
      if ok && o.dropsTable {
        DeleteCacheFile();
      }
      reply := Spec.Reply(ok, None, None);
    }
  }
}
