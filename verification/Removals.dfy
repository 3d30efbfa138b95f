/** What a removal or a purge leaves behind: of an entry that nobody reads nothing, in index, table and files. */
module Removals {
  import opened Options
  import opened LruList
  import opened CacheSpec
  import opened FileCacheSpec
  import opened FileCacheRuns
  import opened FileCacheAgreement
  import opened CacheLoad

  /** The cache that the call works on: the index is rebuilt first if need be. */
  function Begun(st: State, o: Outcome, maxSize: nat): Cache {
    Initialize(st, o, maxSize).0.cache
  }

  /** Every entry of the index has its row. */
  ghost predicate HaveRows(c: Cache) {
    forall k :: At(c, k).entry.Some? ==> At(c, k).row.Some?
  }

  /** Nobody reads. */
  ghost predicate Unread(c: Cache) {
    forall k :: RefsOf(At(c, k)) == 0
  }

  lemma BegunUnique(st: State, o: Outcome, maxSize: nat)
    requires Unique(st.cache.lru)
    ensures Unique(Begun(st, o, maxSize).lru)
  {
    LoadOnlyLoses(st.cache, o.faults, maxSize, st.cache.disk.rows, Listing(o));
  }

  /**
   A `remove` that succeeds leaves nothing of the key, unless somebody is reading it, and then marks it. An entry that
   nobody reads and that has its row is gone exactly when both deletions work; and no other key is touched.
   */
  lemma RemovedIsGone(st: State, o: Outcome, maxSize: nat, k: string)
    requires Unique(st.cache.lru) && Initialize(st, o, maxSize).1
    ensures var c := Begun(st, o, maxSize);
            var (st', reply) := Step(st, Remove(k), o, maxSize);
            var was, now, n := At(c, k), At(st'.cache, k), c.disk.deletions;
            && (was.entry.None? ==> !reply.ok)
            && (RefsOf(was) == 0 && reply.ok ==> now == GONE)
            && (RefsOf(was) > 0 ==> reply.ok && RefsOf(now) == RefsOf(was) && now.entry.value.reserved)
            && (was.entry.Some? && RefsOf(was) == 0 && was.row.Some? ==>
                  (reply.ok <==> o.faults.rowDeleted(n) && (was.body.Some? ==> o.faults.fileDeleted(n))))
            && (forall j :: j != k ==> At(st'.cache, j) == At(c, j))
  {
    var c := Begun(st, o, maxSize);
    BegunUnique(st, o, maxSize);
    RemoveKeeps(c, o.faults, k);
    BaseRemoveEffect(c, o.faults, k);
  }

  lemma {:induction false} RemoveEachGone(c: Cache, f: Faults, ks: seq<string>, k: string)
    requires Unique(c.lru) && DeletionsSucceed(f) && k in ks
    requires k in Index(c.lru) && k in c.disk.rows
    ensures At(RemoveEach(c, f, ks).0, k) == GONE
    decreases |ks|
  {
    var c1 := BaseRemove(c, f, ks[0]).0;
    BaseRemoveEffect(c, f, ks[0]);
    RemoveEachEffect(c1, f, ks[1..]);
    if k != ks[0] {
      assert At(c1, k) == At(c, k);
      RemoveEachGone(c1, f, ks[1..], k);
    }
  }

  lemma {:induction false} RemoveEachSucceeds(c: Cache, f: Faults, ks: seq<string>)
    requires Unique(c.lru) && DeletionsSucceed(f)
    requires forall i :: 0 <= i < |ks| ==> ks[i] in Index(c.lru) && ks[i] in c.disk.rows
    requires forall i, j :: 0 <= i < j < |ks| ==> ks[i] != ks[j]
    ensures RemoveEach(c, f, ks).1
    decreases |ks|
  {
    if ks != [] {
      var c1 := BaseRemove(c, f, ks[0]).0;
      BaseRemoveEffect(c, f, ks[0]);
      forall i | 0 <= i < |ks[1..]| ensures ks[1..][i] in Index(c1.lru) && ks[1..][i] in c1.disk.rows {
        assert ks[1..][i] == ks[i + 1] && At(c1, ks[i + 1]) == At(c, ks[i + 1]);
      }
      RemoveEachSucceeds(c1, f, ks[1..]);
    }
  }

  /** What a clearing that says it succeeded has done. */
  lemma ClearedAll(c: Cache, f: Faults, busy: bool, k: string)
    requires Unique(c.lru) && Clear(c, f, busy).1 && At(c, k).entry.Some?
    ensures At(Clear(c, f, busy).0, k) == GONE && (busy || RefsOf(At(c, k)) == 0)
  {
    RemoveEachEffect(c, f, KeysOf(c.lru));
    UnpinnedKeys(c.lru, k);
  }

  lemma ClearGone(c: Cache, f: Faults, busy: bool, k: string)
    requires Unique(c.lru) && DeletionsSucceed(f)
    requires At(c, k).entry.Some? && At(c, k).row.Some? && (busy || RefsOf(At(c, k)) == 0)
    ensures At(Clear(c, f, busy).0, k) == GONE
  {
    UnpinnedKeys(c.lru, k);
    RemoveEachGone(c, f, KeysOf(if busy then c.lru else Unpinned(c.lru)), k);
  }

  lemma ClearSucceeds(c: Cache, f: Faults, busy: bool)
    requires Unique(c.lru) && DeletionsSucceed(f)
    requires HaveRows(c) && (busy || Unread(c))
    ensures Clear(c, f, busy).1
  {
    forall i | 0 <= i < |c.lru|
      ensures c.lru[i].key in Index(c.lru) && c.lru[i].key in c.disk.rows
      ensures !busy ==> c.lru[i].refs == 0
    {
      IndexAt(c.lru, i);
      assert At(c, c.lru[i].key).entry == Some(c.lru[i]);
    }
    if !busy {
      AllUnpinned(c.lru);
    }
    RemoveEachSucceeds(c, f, KeysOf(c.lru));
  }

  /**
   A `purge` that succeeds leaves nothing of any entry, and, if the table can be dropped, no row at all. When deletions
   work, every entry with a row is gone that nobody reads, or that somebody reads when the purge is forced, and an
   unforced purge fails only because of entries being read.
   */
  lemma PurgedIsGone(st: State, o: Outcome, maxSize: nat, busy: bool)
    requires Unique(st.cache.lru) && Initialize(st, o, maxSize).1
    ensures var c := Begun(st, o, maxSize);
            var (st', reply) := Step(st, Purge(busy), o, maxSize);
            && (reply.ok ==> st'.cache.lru == [] && forall k :: At(c, k).entry.Some? ==> At(st'.cache, k) == GONE)
            && (reply.ok && o.dropsTable && st'.ready ==> st'.cache.disk.rows == map[])
            && (reply.ok ==> busy || Unread(c))
            && (DeletionsSucceed(o.faults) ==>
                  forall k :: At(c, k).entry.Some? && At(c, k).row.Some? && (busy || RefsOf(At(c, k)) == 0) ==>
                    At(st'.cache, k) == GONE)
            && (DeletionsSucceed(o.faults) && HaveRows(c) && (busy || Unread(c)) ==> reply.ok)
  {
    var c, f := Begun(st, o, maxSize), o.faults;
    var (c1, ok) := Clear(c, f, busy);
    BegunUnique(st, o, maxSize);
    ClearEffect(c, f, busy);
    var c' := Step(st, Purge(busy), o, maxSize).0.cache;
    forall k | At(c, k).entry.Some?
      ensures ok ==> At(c', k) == GONE && (busy || RefsOf(At(c, k)) == 0)
      ensures DeletionsSucceed(f) && At(c, k).row.Some? && (busy || RefsOf(At(c, k)) == 0) ==> At(c', k) == GONE
    {
      if ok {
        ClearedAll(c, f, busy, k);
      }
      if DeletionsSucceed(f) && At(c, k).row.Some? && (busy || RefsOf(At(c, k)) == 0) {
        ClearGone(c, f, busy, k);
      }
    }
    if DeletionsSucceed(f) && HaveRows(c) && (busy || Unread(c)) {
      ClearSucceeds(c, f, busy);
    }
  }
}
