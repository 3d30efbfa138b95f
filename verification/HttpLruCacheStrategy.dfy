/**
 The LRU index as it is kept in memory: cache information objects in a recency list, a map from key to list
 node, and a running byte total. Every method is proved against the functions of `CacheSpec`.
 */
module HttpLru {
  import opened Options
  import opened LruList
  import CacheSpec

  class HttpCacheInfo {
    var key: string
    var dataSize: nat
    var reservedRemove: bool
    var dataRefCount: nat

    function Value(): Entry
      reads this
    {
      Entry(key, dataSize, reservedRemove, dataRefCount)
    }

    constructor (key: string, dataSize: nat)
      ensures Value() == Entry(key, dataSize, false, 0)
    {
      this.key, this.dataSize, reservedRemove, dataRefCount := key, dataSize, false, 0;
    }

    constructor CopyOf(original: HttpCacheInfo)
      ensures Value() == original.Value()
    {
      key, dataSize := original.key, original.dataSize;
      reservedRemove, dataRefCount := original.reservedRemove, original.dataRefCount;
    }

    method AddDataRef()
      modifies this`dataRefCount
      ensures Value() == old(Value()).(refs := old(dataRefCount) + 1)
    {
      dataRefCount := dataRefCount + 1;
    }

    method ReleaseDataRef()
      modifies this`dataRefCount
      ensures Value() == old(Value()).(refs := if old(dataRefCount) == 0 then 0 else old(dataRefCount) - 1)
    {
      if dataRefCount == 0 {
        return;
      }
      dataRefCount := dataRefCount - 1;
    }
  }

  /** The strategy's listener: the metadata table and body files, with deletions that may fail. */
  class CacheStorage {
    var rows: map<string, CacheSpec.Row>
    var files: map<string, CacheSpec.Body>
    var deletions: nat
    var answers: CacheSpec.Answers
    var faults: CacheSpec.Faults

    constructor (rows: map<string, CacheSpec.Row>, files: map<string, CacheSpec.Body>,
                 answers: CacheSpec.Answers, faults: CacheSpec.Faults)
      ensures this.rows == rows && this.files == files && this.answers == answers
    {
      this.rows, this.files, this.deletions, this.answers, this.faults := rows, files, 0, answers, faults;
    }

    function Contents(): CacheSpec.Disk
      reads this
    {
      CacheSpec.Disk(rows, files, deletions)
    }

    method OnRemove(key: string) returns (accepted: bool)
      modifies this`rows, this`files, this`deletions
      ensures (Contents(), accepted) == CacheSpec.OnRemove(old(Contents()), faults, key)
    {
      var attempt := deletions;
      deletions := attempt + 1;
      if key !in rows || !faults.rowDeleted(attempt) {
        return false;
      }
      rows := rows - {key};
      if key in files {
        if !faults.fileDeleted(attempt) {
          return false;
        }
        files := files - {key};
      }
      assert files == old(files) - {key};
      return true;
    }
  }

  function Values(list: seq<HttpCacheInfo>): seq<Entry>
    reads list
  {
    seq(|list|, i requires 0 <= i < |list| reads list => list[i].Value())
  }

  /** Unlinks a node from a list. */
  function Erase<T(==)>(list: seq<T>, node: T): seq<T> {
    if list == [] then []
    else if list[0] == node then Erase(list[1..], node)
    else [list[0]] + Erase(list[1..], node)
  }

  lemma {:induction false} ErasedMembers<T>(list: seq<T>, node: T, o: T)
    ensures o in Erase(list, node) <==> o in list && o != node
  {
    if list != [] {
      ErasedMembers(list[1..], node, o);
    }
  }

  lemma {:induction false} ValuesErase(list: seq<HttpCacheInfo>, node: HttpCacheInfo)
    requires Unique(Values(list)) && node in list
    ensures Values(Erase(list, node)) == Without(Values(list), node.key)
  {
    if list[0] == node {
      assert Values(list)[1..] == Values(list[1..]);
      UniqueHead(Values(list));
      WithoutMissing(Values(list[1..]), node.key);
      EraseMissing(list[1..], node);
    } else {
      assert Values(list)[1..] == Values(list[1..]);
      var i :| 0 <= i < |list| && list[i] == node;
      assert Values(list)[i].key == node.key && Values(list)[0].key == list[0].key;
      assert list[1..][i - 1] == node;
      ValuesErase(list[1..], node);
      assert Values(Erase(list, node)) == [list[0].Value()] + Values(Erase(list[1..], node));
    }
  }

  lemma {:induction false} EraseMissing(list: seq<HttpCacheInfo>, node: HttpCacheInfo)
    requires node.key !in Index(Values(list))
    ensures Erase(list, node) == list
  {
    if list != [] {
      assert Values(list)[1..] == Values(list[1..]);
      EraseMissing(list[1..], node);
    }
  }

  /** List and map are in bijection, keys are unique, and the total is the sum of the sizes. */
  ghost predicate Linked(list: seq<HttpCacheInfo>, nodes: map<string, HttpCacheInfo>, total: int)
    reads list
  {
    && Unique(Values(list))
    && total == Bytes(Values(list))
    && nodes.Keys == Index(Values(list)).Keys
    && (forall k | k in nodes :: nodes[k] in list && nodes[k].key == k)
  }

  lemma LinkedNode(list: seq<HttpCacheInfo>, nodes: map<string, HttpCacheInfo>, total: int, k: string)
    requires Linked(list, nodes, total) && k in nodes
    ensures Index(Values(list))[k] == nodes[k].Value()
  {
    var i :| 0 <= i < |list| && list[i] == nodes[k];
    assert Values(list)[i] == nodes[k].Value();
    IndexAt(Values(list), i);
  }

  lemma NodeLinked(list: seq<HttpCacheInfo>, nodes: map<string, HttpCacheInfo>, total: int, o: HttpCacheInfo)
    requires Linked(list, nodes, total) && o in list
    ensures o.key in nodes && nodes[o.key] == o
  {
    var i :| 0 <= i < |list| && list[i] == o;
    IndexAt(Values(list), i);
    assert Values(list)[i].key == o.key;
    var j :| 0 <= j < |list| && list[j] == nodes[o.key];
    assert Values(list)[j].key == o.key;
  }

  /** A node stands in one place. */
  lemma Standing(list: seq<HttpCacheInfo>, node: HttpCacheInfo) returns (i: nat)
    requires Unique(Values(list)) && node in list
    ensures i < |list| && list[i] == node && Values(list)[i] == node.Value()
    ensures forall j | 0 <= j < |list| && j != i :: list[j] != node && Values(list)[j].key != node.key
  {
    i :| 0 <= i < |list| && list[i] == node;
    forall j | 0 <= j < |list| && j != i ensures list[j] != node && Values(list)[j].key != node.key {
      assert Values(list)[i].key == node.key && Values(list)[j].key == list[j].key;
    }
  }

  /** Marking an entry keeps list, map and total linked. */
  lemma Relinked(list: seq<HttpCacheInfo>, nodes: map<string, HttpCacheInfo>, total: int, was: seq<Entry>, k: string)
    requires Unique(was) && total == Bytes(was) && nodes.Keys == Index(was).Keys
    requires Values(list) == CacheSpec.Mark(was, k)
    requires forall j | j in nodes :: nodes[j] in list && nodes[j].key == j
    ensures Linked(list, nodes, total)
  {
    CacheSpec.MarkFacts(was, k);
  }

  lemma ErasedLinked(list: seq<HttpCacheInfo>, nodes: map<string, HttpCacheInfo>, total: int, k: string)
    requires Linked(list, nodes, total) && k in nodes
    ensures var left := Erase(list, nodes[k]);
            && Linked(left, nodes - {k}, total - nodes[k].dataSize)
            && Values(left) == Without(Values(list), k)
            && (forall o :: o in left ==> o in list)
  {
    var left := Erase(list, nodes[k]);
    LinkedNode(list, nodes, total, k);
    BytesWithout(Values(list), k);
    UniqueWithout(Values(list), k);
    IndexWithout(Values(list), k);
    ValuesErase(list, nodes[k]);
    forall o: HttpCacheInfo | o in list ensures o in left <==> o != nodes[k] {
      ErasedMembers(list, nodes[k], o);
    }
    forall o | o in left ensures o in list {
      ErasedMembers(list, nodes[k], o);
    }
  }

  lemma FrontLinked(list: seq<HttpCacheInfo>, nodes: map<string, HttpCacheInfo>, total: int, node: HttpCacheInfo)
    requires Linked(list, nodes, total) && node.key !in nodes
    ensures Linked([node] + list, nodes[node.key := node], total + node.dataSize)
    ensures Values([node] + list) == [node.Value()] + Values(list)
  {
    var front := [node] + list;
    assert Values(front) == [node.Value()] + Values(list);
    assert Values(front)[1..] == Values(list);
    UniqueCons(node.Value(), Values(list));
  }

  /** What `erase` of the node of the key, if any, followed by `push_front` of `node` does to the structure. */
  lemma Fronted(list: seq<HttpCacheInfo>, nodes: map<string, HttpCacheInfo>, total: int, node: HttpCacheInfo)
    requires Linked(list, nodes, total)
    ensures var k := node.key;
            var left := if k in nodes then Erase(list, nodes[k]) else list;
            var bytes := if k in nodes then nodes[k].dataSize else 0;
            && bytes <= total
            && Linked([node] + left, nodes[k := node], total - bytes + node.dataSize)
            && Values([node] + left) == ToFront(Values(list), node.Value())
            && (forall o :: o in left ==> o in list)
  {
    var k := node.key;
    if k in nodes {
      ErasedLinked(list, nodes, total, k);
      FrontLinked(Erase(list, nodes[k]), nodes - {k}, total - nodes[k].dataSize, node);
      assert (nodes - {k})[k := node] == nodes[k := node];
    } else {
      WithoutMissing(Values(list), k);
      FrontLinked(list, nodes, total, node);
    }
  }

  function Longer(found: Option<seq<string>>, keys: seq<string>): Option<seq<string>> {
    match found
    case None => None
    case Some(ks) => Some(ks + keys)
  }

  class HttpLruCacheStrategy {
    const listener: CacheStorage
    const maxSize: nat
    var lruList: seq<HttpCacheInfo>
    var lruListMap: map<string, HttpCacheInfo>
    var totalSize: nat

    ghost function Lru(): seq<Entry>
      reads this, lruList
    {
      Values(lruList)
    }

    ghost function Cache(): CacheSpec.Cache
      reads this, lruList, listener
    {
      CacheSpec.Cache(Lru(), listener.Contents())
    }

    ghost predicate Valid()
      reads this, lruList
    {
      Linked(lruList, lruListMap, totalSize)
    }

    constructor (maxSize: nat, listener: CacheStorage)
      ensures Valid() && this.maxSize == maxSize && this.listener == listener && lruList == []
    {
      this.maxSize, this.listener := maxSize, listener;
      lruList, lruListMap, totalSize := [], map[], 0;
    }

    method BaseRemove(key: string) returns (ok: bool)
      requires Valid()
      modifies this`lruList, this`lruListMap, this`totalSize, listener`rows, listener`files, listener`deletions
      ensures Valid()
      ensures (Cache(), ok) == CacheSpec.BaseRemove(old(Cache()), listener.faults, key)
      ensures forall o :: o in lruList ==> o in old(lruList)
    {
      if key in lruListMap {
        ok := listener.OnRemove(key);
        if ok {
          EraseNode(key);
        }
      } else {
        ok := false;
      }
    }

    /** `erase` of the node of a key from list and map. */
    method EraseNode(key: string)
      requires Valid() && key in lruListMap
      modifies this`lruList, this`lruListMap, this`totalSize
      ensures Valid() && Lru() == Without(old(Lru()), key)
      ensures forall o :: o in lruList ==> o in old(lruList)
    {
      var value := lruListMap[key];
      ErasedLinked(lruList, lruListMap, totalSize, key);
      totalSize := totalSize - value.dataSize;
      lruList := Erase(lruList, value);
      lruListMap := lruListMap - {key};
    }

    /** `erase` of the node of the key, if any, followed by `push_front` of `node`. */
    method PushFront(node: HttpCacheInfo)
      requires Valid()
      modifies this`lruList, this`lruListMap, this`totalSize
      ensures Valid()
      ensures Lru() == ToFront(old(Lru()), node.Value())
      ensures node.key in lruListMap && lruListMap[node.key] == node
      ensures forall o :: o in lruList ==> o == node || o in old(lruList)
    {
      var key := node.key;
      Fronted(lruList, lruListMap, totalSize, node);
      var left, rest := lruList, totalSize;
      if key in lruListMap {
        var oldInfo := lruListMap[key];
        left, rest := Erase(lruList, oldInfo), totalSize - oldInfo.dataSize;
      }
      lruList, lruListMap, totalSize := [node] + left, lruListMap[key := node], rest + node.dataSize;
    }

    ghost predicate Pinned(key: string)
      requires Valid()
      reads this, lruList
    {
      key in lruListMap && lruListMap[key].dataRefCount > 0
    }

    ghost predicate Grows(key: string, size: nat)
      requires Valid()
      reads this, lruList
    {
      key in lruListMap ==> lruListMap[key].dataSize < size
    }

    method Add(key: string, info: HttpCacheInfo?) returns (ok: bool)
      requires Valid()
      requires info != null ==> info.key == key && info !in lruList
      modifies this`lruList, this`lruListMap, this`totalSize, listener`rows, listener`files, listener`deletions
      ensures Valid()
      ensures info == null ==> !ok && Cache() == old(Cache())
      ensures info != null ==>
                && info.Value() == old(info.Value()) && info !in lruList
                && (Cache(), ok)
                == CacheSpec.Add(old(Cache()), listener.faults, listener.answers, maxSize, info.Value())
      ensures forall o :: o in lruList ==> o in old(lruList) || fresh(o)
    {
      if info == null {
        return false;
      }
      ok := listener.answers.add;
      if ok {
        ok := AddOrUpdate(key, info);
      }
    }

    /** The update of the base class, which knows nothing of deferred removal. */
    method BaseUpdate(key: string, info: HttpCacheInfo?) returns (ok: bool)
      requires Valid()
      requires info != null ==> info.key == key && (info in lruList ==> key in lruListMap && lruListMap[key] == info)
      modifies this`lruList, this`lruListMap, this`totalSize, listener`rows, listener`files, listener`deletions
      ensures Valid()
      ensures info == null ==> !ok && Cache() == old(Cache())
      ensures info != null ==>
                && info.Value() == old(info.Value())
                && (ok ==> info !in lruList)
                && (Cache(), ok)
                == CacheSpec.BaseUpdate(old(Cache()), listener.faults, listener.answers, maxSize, info.Value())
      ensures forall o :: o in lruList ==> o in old(lruList) || fresh(o)
      decreases if info != null && Grows(key, info.dataSize) then 6 else 2
    {
      if info == null {
        return false;
      }
      ok := listener.answers.update;
      if ok {
        ok := AddOrUpdate(key, info);
      }
    }

    method AddOrUpdate(key: string, info: HttpCacheInfo) returns (ok: bool)
      requires Valid()
      requires info.key == key && (info in lruList ==> key in lruListMap && lruListMap[key] == info)
      modifies this`lruList, this`lruListMap, this`totalSize, listener`rows, listener`files, listener`deletions
      ensures Valid()
      ensures info.Value() == old(info.Value())
      ensures ok ==> info !in lruList
      ensures (Cache(), ok)
           == CacheSpec.AddOrUpdate(old(Cache()), listener.faults, listener.answers, maxSize, info.Value())
      ensures forall o :: o in lruList ==> o in old(lruList) || fresh(o)
      decreases if Grows(key, info.dataSize) then 5 else 1, 1
    {
      ok := RoomFor(key, info.dataSize);
      if ok {
        PushCopy(info);
      }
    }

    /** Makes room unless the entry of the key is there and does not grow. */
    method RoomFor(key: string, size: nat) returns (roomy: bool)
      requires Valid()
      modifies this`lruList, this`lruListMap, this`totalSize, listener`rows, listener`files, listener`deletions
      ensures Valid()
      ensures (Cache(), roomy) == CacheSpec.RoomFor(old(Cache()), listener.faults, listener.answers, maxSize, key, size)
      ensures forall o :: o in lruList ==> o in old(lruList) || fresh(o)
      decreases if Grows(key, size) then 5 else 1, 0
    {
      roomy := true;
      if key in lruListMap {
        LinkedNode(lruList, lruListMap, totalSize, key);
        if lruListMap[key].dataSize < size {
          roomy := MakeSpaceFor(size, key);
        }
      } else {
        roomy := MakeSpaceFor(size, "");
      }
    }

    /** A copy of `info` goes to the front; `info` itself is then not in the list. */
    method PushCopy(info: HttpCacheInfo)
      requires Valid()
      modifies this`lruList, this`lruListMap, this`totalSize
      ensures Valid() && Lru() == ToFront(old(Lru()), info.Value()) && info !in lruList
      ensures forall o :: o in lruList ==> o in old(lruList) || fresh(o)
    {
      var copy := new HttpCacheInfo.CopyOf(info);
      PushFront(copy);
      if info in lruList {
        NodeLinked(lruList, lruListMap, totalSize, info);
      }
    }

    method MakeSpaceFor(request: nat, updatedKey: string) returns (ok: bool)
      requires Valid()
      modifies this`lruList, this`lruListMap, this`totalSize, listener`rows, listener`files, listener`deletions
      ensures Valid()
      ensures (Cache(), ok)
           == CacheSpec.MakeSpace(old(Cache()), listener.faults, listener.answers, maxSize, request, updatedKey)
      ensures forall o :: o in lruList ==> o in old(lruList) || fresh(o)
      decreases 4
    {
      if totalSize + request <= maxSize {
        return true;
      }
      if lruList == [] {
        return false;
      }
      ok := Evict(totalSize + request - maxSize, updatedKey, Cache());
    }

    /** Evicts the victims of the scan, if it finds enough of them. */
    method Evict(need: int, updatedKey: string, ghost c: CacheSpec.Cache) returns (ok: bool)
      requires Valid() && c == Cache()
      modifies this`lruList, this`lruListMap, this`totalSize, listener`rows, listener`files, listener`deletions
      ensures Valid() && (ok <==> Victims(c.lru, need).Some?)
      ensures Cache() == if !ok then c else
        CacheSpec.EvictAll(c, listener.faults, listener.answers, Victims(c.lru, need).value, updatedKey)
      ensures forall o :: o in lruList ==> o in old(lruList) || fresh(o)
      decreases 3, 2
    {
      var keys;
      ok, keys := CreateRemoveLruDataList(need);
      if ok {
        CacheSpec.VictimsEvictable(c, need);
        EvictAll(keys, updatedKey);
      }
    }

    /** Removes the victims one by one, whatever the listener answers; the key being updated is left alone. */
    method EvictAll(keys: seq<string>, updatedKey: string)
      requires Valid()
      requires CacheSpec.Evictable(Cache(), keys)
      modifies this`lruList, this`lruListMap, this`totalSize, listener`rows, listener`files, listener`deletions
      ensures Valid()
      ensures Cache() == CacheSpec.EvictAll(old(Cache()), listener.faults, listener.answers, keys, updatedKey)
      ensures forall o :: o in lruList ==> o in old(lruList) || fresh(o)
      decreases 3, 1
    {
      for i := 0 to |keys|
        invariant Valid()
        invariant CacheSpec.Evictable(Cache(), keys[i..])
        invariant CacheSpec.EvictAll(Cache(), listener.faults, listener.answers, keys[i..], updatedKey)
               == CacheSpec.EvictAll(old(Cache()), listener.faults, listener.answers, keys, updatedKey)
        invariant forall o :: o in lruList ==> o in old(lruList) || fresh(o)
      {
        assert keys[i..][0] == keys[i] && keys[i..][1..] == keys[i + 1..];
        EvictNext(keys[i], updatedKey, keys[i..]);
      }
    }

    /** Removes the first of the victims still to go, unless it is the key being updated. */
    method EvictNext(key: string, updatedKey: string, ghost left: seq<string>)
      requires Valid()
      requires CacheSpec.Evictable(Cache(), left) && left != [] && left[0] == key
      modifies this`lruList, this`lruListMap, this`totalSize, listener`rows, listener`files, listener`deletions
      ensures Valid() && CacheSpec.Evictable(Cache(), left[1..])
      ensures CacheSpec.EvictAll(Cache(), listener.faults, listener.answers, left[1..], updatedKey)
           == CacheSpec.EvictAll(old(Cache()), listener.faults, listener.answers, left, updatedKey)
      ensures forall o :: o in lruList ==> o in old(lruList) || fresh(o)
      decreases 3, 0
    {
      CacheSpec.EvictOne(Cache(), listener.faults, listener.answers, left, updatedKey);
      if updatedKey == "" || updatedKey != key {
        LinkedNode(lruList, lruListMap, totalSize, key);
        var _ := Remove(key);
      }
    }

    /** The eviction scan, from the tail of the list and past the entries being read. */
    method CreateRemoveLruDataList(removeSize: int) returns (ok: bool, keys: seq<string>)
      requires Valid()
      ensures ok <==> Victims(Lru(), removeSize).Some?
      ensures ok ==> Victims(Lru(), removeSize) == Some(keys)
    {
      keys := [];
      var targetSize := 0;
      var i := |lruList|;
      assert Lru()[..i] == Lru();
      assert forall ks: seq<string> :: ks + [] == ks;
      while targetSize < removeSize
        invariant 0 <= i <= |lruList|
        invariant Victims(Lru(), removeSize) == Longer(Victims(Lru()[..i], removeSize - targetSize), keys)
        decreases i
      {
        if i == 0 {
          return false, [];
        }
        i := i - 1;
        var info := lruList[i];
        assert Lru()[..i + 1][..i] == Lru()[..i] && Lru()[..i + 1][i] == info.Value();
        if info.dataRefCount == 0 {
          assert forall ks: seq<string> :: ks + [info.key] + keys == ks + ([info.key] + keys);
          keys := [info.key] + keys;
          targetSize := targetSize + info.dataSize;
        }
      }
      assert [] + keys == keys;
      ok := true;
    }

    /** Removal, deferred while the entry is being read. */
    method Remove(key: string) returns (ok: bool)
      requires Valid()
      modifies this`lruList, this`lruListMap, this`totalSize, listener`rows, listener`files, listener`deletions
      modifies if Pinned(key) then {lruListMap[key]} else {}
      ensures Valid()
      ensures (Cache(), ok) == CacheSpec.Remove(old(Cache()), listener.faults, listener.answers, key)
      ensures forall o :: o in lruList ==> o in old(lruList) || fresh(o)
      decreases if Pinned(key) then 7 else 0
    {
      if key !in lruListMap {
        return false;
      }
      LinkedNode(lruList, lruListMap, totalSize, key);
      var info := lruListMap[key];
      if info.dataRefCount > 0 {
        if !info.reservedRemove {
          Reserve(info);
          CacheSpec.MarkFacts(old(Lru()), key);
          var _ := BaseUpdate(key, info);
        }
        return true;
      }
      ok := BaseRemove(key);
    }

    /** Sets the deferred-removal flag of the stored object itself. */
    method Reserve(info: HttpCacheInfo)
      requires Valid() && info in lruList
      modifies info`reservedRemove
      ensures Valid() && Lru() == CacheSpec.Mark(old(Lru()), info.key)
      ensures info.Value() == old(info.Value()).(reserved := true)
    {
      ghost var was := Lru();
      ghost var i := Standing(lruList, info);
      CacheSpec.MarkAt(was, i);
      SetFlag(info, was, i);
      Relinked(lruList, lruListMap, totalSize, was, info.key);
    }

    method SetFlag(info: HttpCacheInfo, ghost was: seq<Entry>, ghost i: nat)
      requires was == Lru() && i < |lruList| && lruList[i] == info
      requires forall j | 0 <= j < |lruList| && j != i :: lruList[j] != info
      modifies info`reservedRemove
      ensures Lru() == was[i := was[i].(reserved := true)]
      ensures info.Value() == old(info.Value()).(reserved := true)
    {
      info.reservedRemove := true;
    }

    /** An update that carries out a deferred removal once the last reader is gone. */
    method Update(key: string, info: HttpCacheInfo?) returns (ok: bool)
      requires Valid()
      requires info != null ==> info.key == key && info !in lruList
      modifies this`lruList, this`lruListMap, this`totalSize, listener`rows, listener`files, listener`deletions
      ensures Valid()
      ensures info == null ==> !ok && Cache() == old(Cache())
      ensures info != null ==>
                && info.Value() == old(info.Value()) && info !in lruList
                && (Cache(), ok)
                == CacheSpec.Update(old(Cache()), listener.faults, listener.answers, maxSize, info.Value())
      ensures forall o :: o in lruList ==> o in old(lruList) || fresh(o)
    {
      ok := BaseUpdate(key, info);
      if ok {
        if info.dataRefCount == 0 && info.reservedRemove {
          ok := BaseRemove(key);
        }
      }
    }

    /** A look-up hands out a copy: changing it later cannot change the cache. */
    method Get(key: string) returns (info: HttpCacheInfo?)
      requires Valid()
      modifies this`lruList, this`lruListMap, this`totalSize
      ensures Valid()
      ensures info != null ==> fresh(info) && info !in lruList
      ensures Cache() == CacheSpec.Get(old(Cache()), listener.answers, key).0
      ensures CacheSpec.Get(old(Cache()), listener.answers, key).1 == if info == null then None else Some(info.Value())
      ensures forall o :: o in lruList ==> o in old(lruList)
    {
      if key !in lruListMap {
        return null;
      }
      LinkedNode(lruList, lruListMap, totalSize, key);
      var stored := lruListMap[key];
      PushFront(stored);
      if !listener.answers.get {
        return null;
      }
      info := new HttpCacheInfo.CopyOf(stored);
    }

    method CreateRemoveList(mayDeleteIfBusy: bool) returns (ok: bool, keys: seq<string>)
      requires Valid()
      ensures keys == KeysOf(if mayDeleteIfBusy then Lru() else Unpinned(Lru()))
      ensures ok <==> mayDeleteIfBusy || Unpinned(Lru()) == Lru()
    {
      ok, keys := true, [];
      UnpinnedShorter(Lru());
      for i := 0 to |lruList|
        invariant keys == KeysOf(if mayDeleteIfBusy then Lru()[..i] else Unpinned(Lru()[..i]))
        invariant ok <==> mayDeleteIfBusy || |Unpinned(Lru()[..i])| == i
        invariant |Unpinned(Lru()[..i])| <= i
      {
        var info := lruList[i];
        assert Lru()[..i + 1] == Lru()[..i] + [info.Value()];
        BytesSplit(Lru()[..i], [info.Value()]);
        assert [info.Value()][1..] == [];
        assert Unpinned([info.Value()]) == if info.dataRefCount == 0 then [info.Value()] else [];
        if mayDeleteIfBusy {
          keys := keys + [info.key];
        } else if info.dataRefCount == 0 {
          keys := keys + [info.key];
        } else {
          ok := false;
        }
      }
      assert Lru()[..|lruList|] == Lru();
    }

    lemma {:induction false} UnpinnedShorter(s: seq<Entry>)
      ensures |Unpinned(s)| <= |s| && (|Unpinned(s)| == |s| <==> Unpinned(s) == s)
    {
      if s != [] {
        UnpinnedShorter(s[1..]);
      }
    }

    method Clear(mayDeleteIfBusy: bool) returns (ok: bool)
      requires Valid()
      modifies this`lruList, this`lruListMap, this`totalSize, listener`rows, listener`files, listener`deletions
      ensures Valid()
      ensures (Cache(), ok) == CacheSpec.Clear(old(Cache()), listener.faults, mayDeleteIfBusy)
      ensures forall o :: o in lruList ==> o in old(lruList)
    {
      var idle, keys := CreateRemoveList(mayDeleteIfBusy);
      ok := idle;
      for i := 0 to |keys|
        invariant Valid()
        invariant var (now, all) := CacheSpec.RemoveEach(Cache(), listener.faults, keys[i..]);
                  CacheSpec.RemoveEach(old(Cache()), listener.faults, keys).0 == now
        invariant var (now, all) := CacheSpec.RemoveEach(Cache(), listener.faults, keys[i..]);
                  idle && CacheSpec.RemoveEach(old(Cache()), listener.faults, keys).1 <==> ok && all
        invariant forall o :: o in lruList ==> o in old(lruList)
      {
        assert keys[i..][0] == keys[i] && keys[i..][1..] == keys[i + 1..];
        var removed := BaseRemove(keys[i]);
        if !removed {
          ok := false;
        }
      }
    }

    method Reset()
      modifies this`lruList, this`lruListMap, this`totalSize
      ensures Valid() && Lru() == []
    {
      lruList, lruListMap, totalSize := [], map[], 0;
    }
  }
}
