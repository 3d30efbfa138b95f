/**
 What the LRU index of the HTTP cache does, as functions of its whole state: the recency list together
 with the listener behind it (the metadata table and the body files that `onRemove` deletes from).

 The listener's deletions may fail. `Faults` answers, for the n-th deletion ever attempted, whether the
 row and the file really went away; every claim made for all `Faults` holds whatever the listener does.
 */
module CacheSpec {
  import opened Options
  import opened LruList
  import Headers = HeaderMergeSpec

  type Body = seq<bv8>

  /** What the table knows of a stored response: its status and headers, and when it was asked for and came. */
  datatype Metadata = Metadata(key: string, bodySize: nat, code: int, headers: Headers.Fields, sent: int, received: int)

  datatype Row = Row(meta: Metadata, lastAccessed: int)

  /** The metadata table, the body files by cache key, and the number of deletions attempted so far. */
  datatype Disk = Disk(rows: map<string, Row>, files: map<string, Body>, deletions: nat)

  /** Which deletions work. */
  datatype Faults = Faults(rowDeleted: nat -> bool, fileDeleted: nat -> bool)

  /** What the listener says to additions, updates and look-ups. */
  datatype Answers = Answers(add: bool, update: bool, get: bool)

  datatype Cache = Cache(lru: seq<Entry>, disk: Disk)

  ghost predicate DeletionsSucceed(f: Faults) {
    forall n :: f.rowDeleted(n) && f.fileDeleted(n)
  }

  ghost predicate FileDeletionsSucceed(f: Faults) {
    forall n :: f.fileDeleted(n)
  }

  /** Deletes the row first, then the file; a missing row refuses, a missing file does not. */
  function OnRemove(d: Disk, f: Faults, k: string): (Disk, bool) {
    var tried := d.(deletions := d.deletions + 1);
    if k !in d.rows || !f.rowDeleted(d.deletions) then (tried, false)
    else if k in d.files && !f.fileDeleted(d.deletions) then (tried.(rows := d.rows - {k}), false)
    else (tried.(rows := d.rows - {k}, files := d.files - {k}), true)
  }

  /** Removal of an entry whatever its readers, when the listener accepts. */
  function BaseRemove(c: Cache, f: Faults, k: string): (Cache, bool) {
    if k !in Index(c.lru) then (c, false)
    else
      var (d, accepted) := OnRemove(c.disk, f, k);
      (Cache(if accepted then Without(c.lru, k) else c.lru, d), accepted)
  }

  /** Sets the deferred-removal flag of the entry of `k` where it stands. */
  function Mark(s: seq<Entry>, k: string): seq<Entry> {
    if s == [] then []
    else if s[0].key == k then [s[0].(reserved := true)] + s[1..]
    else [s[0]] + Mark(s[1..], k)
  }

  /** Removal that is put off while the entry has readers. */
  function Remove(c: Cache, f: Faults, a: Answers, k: string): (Cache, bool) {
    if k !in Index(c.lru) then (c, false)
    else
      var e := Index(c.lru)[k];
      if e.refs == 0 then BaseRemove(c, f, k)
      else if e.reserved then (c, true)
      else if a.update then (c.(lru := ToFront(c.lru, e.(reserved := true))), true)
      else (c.(lru := Mark(c.lru, k)), true)
  }

  lemma {:induction false} MarkAt(s: seq<Entry>, i: nat)
    requires i < |s| && forall j | 0 <= j < i :: s[j].key != s[i].key
    ensures Mark(s, s[i].key) == s[i := s[i].(reserved := true)]
  {
    var marked := s[i].(reserved := true);
    if i == 0 {
      assert s[0 := marked] == [marked] + s[1..];
    } else {
      var rest := s[1..];
      MarkAt(rest, i - 1);
      assert s[i := marked] == [s[0]] + rest[i - 1 := marked];
    }
  }

  /** Marking changes nothing but the flag. */
  lemma {:induction false} MarkFacts(s: seq<Entry>, k: string)
    ensures Bytes(Mark(s, k)) == Bytes(s)
    ensures Without(Mark(s, k), k) == Without(s, k)
    ensures Index(Mark(s, k)) == if k in Index(s) then Index(s)[k := Index(s)[k].(reserved := true)] else Index(s)
    ensures |Mark(s, k)| == |s| && forall i :: 0 <= i < |s| ==> Mark(s, k)[i].key == s[i].key
  {
    if s != [] {
      MarkFacts(s[1..], k);
      if s[0].key == k {
        assert Mark(s, k)[1..] == s[1..];
      } else {
        assert Mark(s, k)[1..] == Mark(s[1..], k);
      }
    }
  }

  predicate Spared(updatedKey: string, k: string) {
    updatedKey != "" && updatedKey == k
  }

  function EvictAll(c: Cache, f: Faults, a: Answers, ks: seq<string>, updatedKey: string): Cache
    decreases |ks|
  {
    if ks == [] then c
    else EvictAll(if Spared(updatedKey, ks[0]) then c else Remove(c, f, a, ks[0]).0, f, a, ks[1..], updatedKey)
  }

  /** Makes room for `request` bytes; refusals by the listener are ignored, as in the original. */
  function MakeSpace(c: Cache, f: Faults, a: Answers, maxSize: nat, request: nat, updatedKey: string): (Cache, bool) {
    if Bytes(c.lru) + request <= maxSize then (c, true)
    else if c.lru == [] then (c, false)
    else
      match Victims(c.lru, Bytes(c.lru) + request - maxSize)
      case None => (c, false)
      case Some(ks) => (EvictAll(c, f, a, ks, updatedKey), true)
  }

  /** The room for an entry of `k` with `size` bytes: none more is needed by a present entry that does not grow. */
  function RoomFor(c: Cache, f: Faults, a: Answers, maxSize: nat, k: string, size: nat): (Cache, bool) {
    var present := k in Index(c.lru);
    if present && size <= Index(c.lru)[k].size then (c, true)
    else MakeSpace(c, f, a, maxSize, size, if present then k else "")
  }

  function AddOrUpdate(c: Cache, f: Faults, a: Answers, maxSize: nat, e: Entry): (Cache, bool) {
    var (roomy, ok) := RoomFor(c, f, a, maxSize, e.key, e.size);
    if ok then (roomy.(lru := ToFront(roomy.lru, e)), true) else (roomy, false)
  }

  function Add(c: Cache, f: Faults, a: Answers, maxSize: nat, e: Entry): (Cache, bool) {
    if a.add then AddOrUpdate(c, f, a, maxSize, e) else (c, false)
  }

  function BaseUpdate(c: Cache, f: Faults, a: Answers, maxSize: nat, e: Entry): (Cache, bool) {
    if a.update then AddOrUpdate(c, f, a, maxSize, e) else (c, false)
  }

  /** An update that carries out a deferred removal once nobody reads the entry any more. */
  function Update(c: Cache, f: Faults, a: Answers, maxSize: nat, e: Entry): (Cache, bool) {
    var (c', ok) := BaseUpdate(c, f, a, maxSize, e);
    if ok && e.refs == 0 && e.reserved then BaseRemove(c', f, e.key) else (c', ok)
  }

  /** A look-up moves the entry to the front even when the listener then refuses it. */
  function Get(c: Cache, a: Answers, k: string): (Cache, Option<Entry>) {
    if k !in Index(c.lru) then (c, None)
    else
      var e := Index(c.lru)[k];
      (c.(lru := ToFront(c.lru, e)), if a.get then Some(e) else None)
  }

  function RemoveEach(c: Cache, f: Faults, ks: seq<string>): (Cache, bool)
    decreases |ks|
  {
    if ks == [] then (c, true)
    else
      var (c1, ok1) := BaseRemove(c, f, ks[0]);
      var (c2, ok2) := RemoveEach(c1, f, ks[1..]);
      (c2, ok1 && ok2)
  }

  function Clear(c: Cache, f: Faults, mayDeleteIfBusy: bool): (Cache, bool) {
    var ks := KeysOf(if mayDeleteIfBusy then c.lru else Unpinned(c.lru));
    var (c', ok) := RemoveEach(c, f, ks);
    (c', ok && (mayDeleteIfBusy || Unpinned(c.lru) == c.lru))
  }

  // ---- effects, key by key ----

  /** All that the cache holds for one key. */
  datatype Slot = Slot(entry: Option<Entry>, row: Option<Row>, body: Option<Body>)

  const GONE := Slot(None, None, None)

  function At(c: Cache, k: string): Slot {
    Slot(if k in Index(c.lru) then Some(Index(c.lru)[k]) else None,
         if k in c.disk.rows then Some(c.disk.rows[k]) else None,
         if k in c.disk.files then Some(c.disk.files[k]) else None)
  }

  /** `now` is what an attempted removal may leave of `was`: all, nothing, or the entry and file without row. */
  predicate AfterRemoval(was: Slot, now: Slot) {
    now == was || now == GONE || now == was.(row := None)
  }

  /** From `c` to `c'`, only the keys in `ks` were touched, and those only by attempted removals. */
  ghost predicate Evicted(c: Cache, c': Cache, ks: set<string>) {
    && (forall k :: k !in ks ==> At(c', k) == At(c, k))
    && (forall k :: k in ks ==> AfterRemoval(At(c, k), At(c', k)))
  }

  ghost predicate EvictedWhole(c: Cache, c': Cache) {
    forall k :: At(c', k) == At(c, k) || At(c', k) == GONE
  }

  lemma BaseRemoveEffect(c: Cache, f: Faults, k: string)
    requires Unique(c.lru)
    ensures var (c', ok) := BaseRemove(c, f, k);
            && Unique(c'.lru)
            && Evicted(c, c', {k})
            && (ok ==> At(c', k) == GONE && Bytes(c'.lru) + Index(c.lru)[k].size == Bytes(c.lru))
            && (!ok ==> c'.lru == c.lru)
            && (FileDeletionsSucceed(f) ==> EvictedWhole(c, c'))
            && (DeletionsSucceed(f) && k in Index(c.lru) && k in c.disk.rows ==> ok)
  {
    UniqueWithout(c.lru, k);
    IndexWithout(c.lru, k);
    BytesWithout(c.lru, k);
  }

  /** Distinct keys of entries that nobody reads: what the eviction scan hands over. */
  ghost predicate Evictable(c: Cache, ks: seq<string>) {
    && (forall i :: 0 <= i < |ks| ==> ks[i] in Index(c.lru) && Index(c.lru)[ks[i]].refs == 0)
    && (forall i, j :: 0 <= i < j < |ks| ==> ks[i] != ks[j])
  }

  lemma VictimsEvictable(c: Cache, need: int)
    requires Unique(c.lru) && Victims(c.lru, need).Some?
    ensures Evictable(c, Victims(c.lru, need).value)
  {
    VictimsUnpinned(c.lru, need);
  }

  /** Evicting the first victim leaves the others evictable. */
  lemma EvictOne(c: Cache, f: Faults, a: Answers, ks: seq<string>, updatedKey: string)
    requires Unique(c.lru) && Evictable(c, ks) && ks != []
    ensures var c1 := if Spared(updatedKey, ks[0]) then c else Remove(c, f, a, ks[0]).0;
            && Unique(c1.lru)
            && Evictable(c1, ks[1..])
            && Evicted(c, c1, {ks[0]})
            && (Spared(updatedKey, ks[0]) ==> c1 == c)
            && (FileDeletionsSucceed(f) ==> EvictedWhole(c, c1))
  {
    var c1 := if Spared(updatedKey, ks[0]) then c else Remove(c, f, a, ks[0]).0;
    BaseRemoveEffect(c, f, ks[0]);
    forall i | 0 <= i < |ks[1..]|
      ensures ks[1..][i] in Index(c1.lru) && Index(c1.lru)[ks[1..][i]].refs == 0
    {
      assert At(c1, ks[i + 1]) == At(c, ks[i + 1]);
    }
  }

  /** Evicting entries nobody reads: the others keep everything, and the list only loses evicted keys. */
  lemma {:induction false} EvictAllEffect(c: Cache, f: Faults, a: Answers, ks: seq<string>, updatedKey: string)
    requires Unique(c.lru) && Evictable(c, ks)
    ensures var c' := EvictAll(c, f, a, ks, updatedKey);
            && Unique(c'.lru)
            && Evicted(c, c', ToSet(ks))
            && (updatedKey != "" ==> At(c', updatedKey) == At(c, updatedKey))
            && (FileDeletionsSucceed(f) ==> EvictedWhole(c, c'))
    decreases |ks|
  {
    if ks != [] {
      var c1 := if Spared(updatedKey, ks[0]) then c else Remove(c, f, a, ks[0]).0;
      EvictOne(c, f, a, ks, updatedKey);
      EvictAllEffect(c1, f, a, ks[1..], updatedKey);
      ToSetCons(ks);
      assert forall i :: 0 <= i < |ks[1..]| ==> ks[1..][i] == ks[i + 1];
    }
  }

  /** When every eviction is accepted the list loses exactly the victims, the spared key excepted. */
  lemma {:induction false} EvictAllAccepted(c: Cache, f: Faults, a: Answers, ks: seq<string>, updatedKey: string)
    requires Unique(c.lru) && DeletionsSucceed(f) && Evictable(c, ks)
    requires forall i :: 0 <= i < |ks| ==> ks[i] in c.disk.rows
    ensures EvictAll(c, f, a, ks, updatedKey).lru
         == Keep(c.lru, if updatedKey != "" then ToSet(ks) - {updatedKey} else ToSet(ks))
    decreases |ks|
  {
    var spared := if updatedKey != "" then {updatedKey} else {};
    assert ToSet(ks) - spared == if updatedKey != "" then ToSet(ks) - {updatedKey} else ToSet(ks);
    if ks == [] {
      KeepNothing(c.lru);
      assert ToSet(ks) - spared == {};
    } else {
      var c1 := EvictOneAccepted(c, f, a, ks, updatedKey);
      EvictAllAccepted(c1, f, a, ks[1..], updatedKey);
      assert ToSet(ks[1..]) - spared == if updatedKey != "" then ToSet(ks[1..]) - {updatedKey} else ToSet(ks[1..]);
      ToSetCons(ks);
      if Spared(updatedKey, ks[0]) {
        assert ToSet(ks) - spared == ToSet(ks[1..]) - spared;
      } else {
        KeepWithout(c.lru, ks[0], ToSet(ks[1..]) - spared);
        assert ToSet(ks) - spared == ToSet(ks[1..]) - spared + {ks[0]};
      }
    }
  }

  lemma EvictOneAccepted(c: Cache, f: Faults, a: Answers, ks: seq<string>, updatedKey: string) returns (c1: Cache)
    requires Unique(c.lru) && DeletionsSucceed(f) && Evictable(c, ks) && ks != []
    requires forall i :: 0 <= i < |ks| ==> ks[i] in c.disk.rows
    ensures c1 == if Spared(updatedKey, ks[0]) then c else Remove(c, f, a, ks[0]).0
    ensures Unique(c1.lru) && Evictable(c1, ks[1..]) && forall i :: 0 <= i < |ks[1..]| ==> ks[1..][i] in c1.disk.rows
    ensures !Spared(updatedKey, ks[0]) ==>
              && c1.lru == Without(c.lru, ks[0])
              && c1.disk.rows == c.disk.rows - {ks[0]} && c1.disk.files == c.disk.files - {ks[0]}
  {
    c1 := if Spared(updatedKey, ks[0]) then c else Remove(c, f, a, ks[0]).0;
    EvictOne(c, f, a, ks, updatedKey);
    BaseRemoveEffect(c, f, ks[0]);
    forall i | 0 <= i < |ks[1..]| ensures ks[1..][i] in c1.disk.rows {
      assert At(c1, ks[i + 1]) == At(c, ks[i + 1]);
    }
  }

  /** Accepted evictions delete the rows and files of the victims and no others. */
  lemma {:induction false} EvictAllDeletes(c: Cache, f: Faults, a: Answers, ks: seq<string>)
    requires Unique(c.lru) && DeletionsSucceed(f) && Evictable(c, ks)
    requires forall i :: 0 <= i < |ks| ==> ks[i] in c.disk.rows
    ensures var d := EvictAll(c, f, a, ks, "").disk;
            d.rows == c.disk.rows - ToSet(ks) && d.files == c.disk.files - ToSet(ks)
    decreases |ks|
  {
    if ks == [] {
      assert ToSet(ks) == {};
      assert c.disk.rows - {} == c.disk.rows && c.disk.files - {} == c.disk.files;
    } else {
      var c1 := EvictOneAccepted(c, f, a, ks, "");
      EvictAllDeletes(c1, f, a, ks[1..]);
      ToSetCons(ks);
      assert c.disk.rows - {ks[0]} - ToSet(ks[1..]) == c.disk.rows - ToSet(ks);
      assert c.disk.files - {ks[0]} - ToSet(ks[1..]) == c.disk.files - ToSet(ks);
    }
  }

  lemma ToSetCons(ks: seq<string>)
    requires ks != []
    ensures ToSet(ks) == {ks[0]} + ToSet(ks[1..])
  {
    forall k | k in ToSet(ks) ensures k in {ks[0]} + ToSet(ks[1..]) {
      var i :| 0 <= i < |ks| && ks[i] == k;
      assert i > 0 ==> ks[1..][i - 1] == k;
    }
    forall k | k in ToSet(ks[1..]) ensures k in ToSet(ks) {
      var i :| 0 <= i < |ks[1..]| && ks[1..][i] == k;
      assert ks[i + 1] == k;
    }
  }

  // ---- making space ----

  /**
   Space for `request` bytes can be made exactly when the entries being read leave room for them, whatever the
   listener answers; when it cannot, nothing changes.
   */
  lemma MakeSpaceIff(c: Cache, f: Faults, a: Answers, maxSize: nat, request: nat, updatedKey: string)
    ensures var (c', ok) := MakeSpace(c, f, a, maxSize, request, updatedKey);
            && (ok <==> PinnedBytes(c.lru) + request <= maxSize)
            && (!ok ==> c' == c)
  {
    PinnedPlusUnpinned(c.lru);
    VictimsFound(c.lru, Bytes(c.lru) + request - maxSize);
  }

  /** At most an attempted removal of an entry that nobody reads. */
  predicate Cleared(was: Slot, now: Slot) {
    now == was || (was.entry.Some? && was.entry.value.refs == 0 && AfterRemoval(was, now))
  }

  lemma VictimsCleared(c: Cache, c': Cache, ks: seq<string>)
    requires Evictable(c, ks) && Evicted(c, c', ToSet(ks))
    ensures forall k :: Cleared(At(c, k), At(c', k))
  {
    forall k ensures Cleared(At(c, k), At(c', k)) {
      if k in ToSet(ks) {
        assert k in Index(c.lru) && Index(c.lru)[k].refs == 0;
      }
    }
  }

  /** What making space leaves: nothing that is being read has changed, nor anything of the updated key. */
  ghost predicate SpaceMade(c: Cache, c': Cache, f: Faults, updatedKey: string) {
    && Unique(c'.lru)
    && (forall k :: Cleared(At(c, k), At(c', k)))
    && (updatedKey != "" ==> At(c', updatedKey) == At(c, updatedKey))
    && (FileDeletionsSucceed(f) ==> EvictedWhole(c, c'))
  }

  lemma EvictVictims(c: Cache, f: Faults, a: Answers, ks: seq<string>, updatedKey: string)
    requires Unique(c.lru) && Evictable(c, ks)
    ensures SpaceMade(c, EvictAll(c, f, a, ks, updatedKey), f, updatedKey)
  {
    EvictAllEffect(c, f, a, ks, updatedKey);
    VictimsCleared(c, EvictAll(c, f, a, ks, updatedKey), ks);
  }

  lemma MakeSpaceEffect(c: Cache, f: Faults, a: Answers, maxSize: nat, request: nat, updatedKey: string)
    requires Unique(c.lru)
    ensures SpaceMade(c, MakeSpace(c, f, a, maxSize, request, updatedKey).0, f, updatedKey)
  {
    var need := Bytes(c.lru) + request - maxSize;
    if need > 0 && Victims(c.lru, need).Some? {
      VictimsEvictable(c, need);
      EvictVictims(c, f, a, Victims(c.lru, need).value, updatedKey);
    } else {
      NothingEvicted(c, f, updatedKey);
      assert MakeSpace(c, f, a, maxSize, request, updatedKey).0 == c;
    }
  }

  lemma NothingEvicted(c: Cache, f: Faults, updatedKey: string)
    requires Unique(c.lru)
    ensures SpaceMade(c, c, f, updatedKey)
  {
  }

  /** With accepted evictions the index, the rows and the files lose exactly the victims of the scan. */
  lemma MakeSpaceGives(c: Cache, f: Faults, a: Answers, maxSize: nat, request: nat)
    requires Unique(c.lru) && DeletionsSucceed(f)
    requires forall k :: k in Index(c.lru) ==> k in c.disk.rows
    requires Bytes(c.lru) + request > maxSize && Victims(c.lru, Bytes(c.lru) + request - maxSize).Some?
    ensures var (c', ok) := MakeSpace(c, f, a, maxSize, request, "");
            var gone := ToSet(Victims(c.lru, Bytes(c.lru) + request - maxSize).value);
            && ok && c'.lru == Keep(c.lru, gone)
            && c'.disk.rows == c.disk.rows - gone && c'.disk.files == c.disk.files - gone
  {
    var ks := Victims(c.lru, Bytes(c.lru) + request - maxSize).value;
    VictimsEvictable(c, Bytes(c.lru) + request - maxSize);
    forall i | 0 <= i < |ks| ensures ks[i] in c.disk.rows {
      assert ks[i] in Index(c.lru);
    }
    EvictAllAccepted(c, f, a, ks, "");
    EvictAllDeletes(c, f, a, ks);
  }

  /** What is evicted: the unpinned entries of the shortest tail that holds the bytes still missing. */
  lemma MakeSpaceVictims(c: Cache, f: Faults, a: Answers, maxSize: nat, request: nat) returns (at: nat)
    requires Unique(c.lru) && DeletionsSucceed(f)
    requires forall k :: k in Index(c.lru) ==> k in c.disk.rows
    requires Bytes(c.lru) + request > maxSize && PinnedBytes(c.lru) + request <= maxSize
    ensures at < |c.lru|
    ensures var tail, need := c.lru[at..], Bytes(c.lru) + request - maxSize;
            && Bytes(Unpinned(tail)) >= need > Bytes(Unpinned(tail[1..]))
            && MakeSpace(c, f, a, maxSize, request, "").0.lru == Keep(c.lru, ToSet(KeysOf(Unpinned(tail))))
  {
    var need := Bytes(c.lru) + request - maxSize;
    PinnedPlusUnpinned(c.lru);
    VictimsFound(c.lru, need);
    at := VictimsAreShortestTail(c.lru, need);
    assert c.lru[at..][1..] == c.lru[at + 1..];
    MakeSpaceGives(c, f, a, maxSize, request);
  }

  /** After accepted evictions the request fits beside what is left, the spared key's old bytes not counted. */
  lemma MakeSpaceRoom(c: Cache, f: Faults, a: Answers, maxSize: nat, request: nat, updatedKey: string)
    requires Unique(c.lru) && DeletionsSucceed(f)
    requires forall k :: k in Index(c.lru) ==> k in c.disk.rows
    requires MakeSpace(c, f, a, maxSize, request, updatedKey).1
    ensures var c' := MakeSpace(c, f, a, maxSize, request, updatedKey).0;
            && (updatedKey == "" ==> Bytes(c'.lru) + request <= maxSize)
            && Bytes(Without(c'.lru, updatedKey)) + request <= maxSize
  {
    var (c', ok) := MakeSpace(c, f, a, maxSize, request, updatedKey);
    var need := Bytes(c.lru) + request - maxSize;
    if need <= 0 {
      BytesWithout(c.lru, updatedKey);
    } else {
      var gone := ToSet(Victims(c.lru, need).value);
      VictimsUnpinned(c.lru, need);
      VictimsFree(c.lru, need);
      EvictAllAccepted(c, f, a, Victims(c.lru, need).value, updatedKey);
      var left := if updatedKey != "" then gone - {updatedKey} else gone;
      WithoutKeep(c.lru, updatedKey, left);
      WithoutKeep(c.lru, updatedKey, gone);
      assert left + {updatedKey} == gone + {updatedKey};
      EvictAllEffect(c, f, a, Victims(c.lru, need).value, updatedKey);
      KeepSmaller(c.lru, gone, updatedKey);
    }
  }

  lemma {:induction false} KeepSmaller(s: seq<Entry>, gone: set<string>, k: string)
    ensures Bytes(Keep(s, gone + {k})) <= Bytes(Keep(s, gone))
  {
    if s != [] {
      KeepSmaller(s[1..], gone, k);
      if s[0].key !in gone {
        assert Keep(s, gone)[1..] == Keep(s[1..], gone);
        if s[0].key != k {
          assert Keep(s, gone + {k})[1..] == Keep(s[1..], gone + {k});
        }
      }
    }
  }

  // ---- adding and updating ----

  /**
   An accepted `add` or `update` of any entry, new or present, growing or shrinking, puts it in front, leaves every
   other key as it was or attempted to remove it, and never touches an entry that is being read.
   */
  lemma AddOrUpdateEffect(c: Cache, f: Faults, a: Answers, maxSize: nat, e: Entry)
    requires Unique(c.lru)
    ensures var (c', ok) := AddOrUpdate(c, f, a, maxSize, e);
            && Unique(c'.lru)
            && (!ok ==> c' == c)
            && (ok ==> c'.lru != [] && c'.lru[0] == e)
            && (forall k :: k != e.key ==> Cleared(At(c, k), At(c', k)))
            && (FileDeletionsSucceed(f) ==> forall k :: k != e.key ==> At(c', k) == At(c, k) || At(c', k) == GONE)
            && (ok && (e.key != "" || e.key !in Index(c.lru)) ==> At(c', e.key) == At(c, e.key).(entry := Some(e)))
  {
    var present := e.key in Index(c.lru);
    MakeSpaceIff(c, f, a, maxSize, e.size, if present then e.key else "");
    MakeSpaceEffect(c, f, a, maxSize, e.size, if present then e.key else "");
    var roomy := if present && e.size <= Index(c.lru)[e.key].size then c
                 else MakeSpace(c, f, a, maxSize, e.size, if present then e.key else "").0;
    UniqueToFront(roomy.lru, e);
    IndexToFront(roomy.lru, e);
  }

  /**
   The byte bound: when evictions are accepted, an update leaves at most `maxSize` bytes, also when it grows an
   entry in place, where the scan counts the old bytes of that entry although it is not evicted.
   */
  lemma AddOrUpdateBound(c: Cache, f: Faults, a: Answers, maxSize: nat, e: Entry)
    requires Unique(c.lru) && DeletionsSucceed(f)
    requires forall k :: k in Index(c.lru) ==> k in c.disk.rows
    requires Bytes(c.lru) <= maxSize
    ensures var (c', ok) := AddOrUpdate(c, f, a, maxSize, e);
            Bytes(c'.lru) <= maxSize
  {
    var present := e.key in Index(c.lru);
    var k := if present then e.key else "";
    if present && e.size <= Index(c.lru)[e.key].size {
      BytesWithout(c.lru, e.key);
      assert ToFront(c.lru, e)[1..] == Without(c.lru, e.key);
    } else {
      var (roomy, ok) := MakeSpace(c, f, a, maxSize, e.size, k);
      if ok {
        MakeSpaceRoom(c, f, a, maxSize, e.size, k);
        MakeSpaceEffect(c, f, a, maxSize, e.size, k);
        BytesWithout(roomy.lru, e.key);
        assert ToFront(roomy.lru, e)[1..] == Without(roomy.lru, e.key);
      } else {
        MakeSpaceIff(c, f, a, maxSize, e.size, k);
      }
    }
  }

  // ---- refused evictions ----

  /** Whether the `n`-th deletion ever, when it is that of `k`, is accepted. */
  predicate Accepted(d: Disk, f: Faults, k: string, n: nat) {
    k in d.rows && f.rowDeleted(n) && (k in d.files ==> f.fileDeleted(n))
  }

  /** The bytes that evicting `ks` really frees, the first attempt being the `n`-th deletion. */
  function Freed(c: Cache, f: Faults, ks: seq<string>, updatedKey: string, n: nat): nat
    decreases |ks|
  {
    if ks == [] then 0
    else if Spared(updatedKey, ks[0]) then Freed(c, f, ks[1..], updatedKey, n)
    else
      (if ks[0] in Index(c.lru) && Accepted(c.disk, f, ks[0], n) then Index(c.lru)[ks[0]].size else 0)
      + Freed(c, f, ks[1..], updatedKey, n + 1)
  }

  lemma {:induction false} FreedSame(c: Cache, c1: Cache, f: Faults, ks: seq<string>, updatedKey: string, n: nat)
    requires forall i :: 0 <= i < |ks| ==> At(c1, ks[i]) == At(c, ks[i])
    ensures Freed(c1, f, ks, updatedKey, n) == Freed(c, f, ks, updatedKey, n)
    decreases |ks|
  {
    if ks != [] {
      assert At(c1, ks[0]) == At(c, ks[0]);
      FreedSame(c, c1, f, ks[1..], updatedKey, if Spared(updatedKey, ks[0]) then n else n + 1);
    }
  }

  lemma EvictOneBytes(c: Cache, f: Faults, a: Answers, k: string)
    requires Unique(c.lru) && k in Index(c.lru) && Index(c.lru)[k].refs == 0
    ensures var c1 := Remove(c, f, a, k).0;
            && c1.disk.deletions == c.disk.deletions + 1
            && Bytes(c1.lru) == Bytes(c.lru)
                                - if Accepted(c.disk, f, k, c.disk.deletions) then Index(c.lru)[k].size else 0
  {
    BytesWithout(c.lru, k);
  }

  lemma {:induction false} EvictAllBytes(c: Cache, f: Faults, a: Answers, ks: seq<string>, updatedKey: string)
    requires Unique(c.lru) && Evictable(c, ks)
    ensures Bytes(EvictAll(c, f, a, ks, updatedKey).lru) == Bytes(c.lru) - Freed(c, f, ks, updatedKey, c.disk.deletions)
    decreases |ks|
  {
    if ks != [] {
      var c1 := if Spared(updatedKey, ks[0]) then c else Remove(c, f, a, ks[0]).0;
      EvictOne(c, f, a, ks, updatedKey);
      EvictAllBytes(c1, f, a, ks[1..], updatedKey);
      if !Spared(updatedKey, ks[0]) {
        EvictOneBytes(c, f, a, ks[0]);
        EvictedOthers(c, c1, ks);
        FreedSame(c, c1, f, ks[1..], updatedKey, c.disk.deletions + 1);
      }
    }
  }

  lemma EvictedOthers(c: Cache, c1: Cache, ks: seq<string>)
    requires ks != [] && Evicted(c, c1, {ks[0]}) && forall i, j :: 0 <= i < j < |ks| ==> ks[i] != ks[j]
    ensures forall i :: 0 <= i < |ks[1..]| ==> At(c1, ks[1..][i]) == At(c, ks[1..][i])
  {
    forall i | 0 <= i < |ks[1..]| ensures At(c1, ks[1..][i]) == At(c, ks[1..][i]) {
      assert ks[1..][i] == ks[i + 1];
    }
  }

  /** What making space for `request` bytes really frees. */
  function FreedBy(c: Cache, f: Faults, maxSize: nat, request: nat, updatedKey: string): nat {
    var need := Bytes(c.lru) + request - maxSize;
    if need <= 0 || Victims(c.lru, need).None? then 0
    else Freed(c, f, Victims(c.lru, need).value, updatedKey, c.disk.deletions)
  }

  lemma MakeSpaceBytes(c: Cache, f: Faults, a: Answers, maxSize: nat, request: nat, updatedKey: string)
    requires Unique(c.lru)
    ensures Bytes(MakeSpace(c, f, a, maxSize, request, updatedKey).0.lru) + FreedBy(c, f, maxSize, request, updatedKey)
         == Bytes(c.lru)
  {
    var need := Bytes(c.lru) + request - maxSize;
    if need > 0 && Victims(c.lru, need).Some? {
      VictimsEvictable(c, need);
      EvictAllBytes(c, f, a, Victims(c.lru, need).value, updatedKey);
    }
  }

  /** The evictions that an addition or update of `e` tries for and those among them that are accepted. */
  function FreedFor(c: Cache, f: Faults, maxSize: nat, e: Entry): nat {
    if e.key !in Index(c.lru) then FreedBy(c, f, maxSize, e.size, "")
    else if e.size <= Index(c.lru)[e.key].size then 0
    else FreedBy(c, f, maxSize, e.size, e.key)
  }

  /**
   The byte bound whatever evictions are refused: a refusal is ignored, and so `maxSize` is kept exactly when the
   accepted evictions free enough for the new entry. The empty key is left out because making space takes it for no key.
   */
  lemma AddOrUpdateBoundIff(c: Cache, f: Faults, a: Answers, maxSize: nat, e: Entry)
    requires Unique(c.lru) && (e.key != "" || e.key !in Index(c.lru))
    ensures var (c', ok) := AddOrUpdate(c, f, a, maxSize, e);
            && (ok ==> Bytes(c'.lru) == Bytes(Without(c.lru, e.key)) + e.size - FreedFor(c, f, maxSize, e))
            && (ok ==> (Bytes(c'.lru) <= maxSize <==>
                          Bytes(Without(c.lru, e.key)) + e.size <= maxSize + FreedFor(c, f, maxSize, e)))
            && (!ok ==> c' == c)
  {
    var present := e.key in Index(c.lru);
    var k := if present then e.key else "";
    AddOrUpdateEffect(c, f, a, maxSize, e);
    MakeSpaceBytes(c, f, a, maxSize, e.size, k);
    MakeSpaceEffect(c, f, a, maxSize, e.size, k);
    var roomy := if present && e.size <= Index(c.lru)[e.key].size then c else MakeSpace(c, f, a, maxSize, e.size, k).0;
    BytesWithout(c.lru, e.key);
    BytesWithout(roomy.lru, e.key);
    assert ToFront(roomy.lru, e)[1..] == Without(roomy.lru, e.key);
    assert present || At(c, e.key).entry == None;
    assert At(roomy, e.key).entry == At(c, e.key).entry;
  }

  /** Ten bytes of room, six of them taken by an entry whose row cannot be deleted: adding six more makes twelve. */
  lemma BoundFails(a: Answers, body: Body)
    requires |body| == 6
    ensures var d := Disk(map["k" := Row(Metadata("k", 6, 200, [], 0, 0), 0)], map["k" := body], 0);
            var c := Cache([Entry("k", 6, false, 0)], d);
            var (c', ok) := AddOrUpdate(c, Faults(n => false, n => false), a, 10, Entry("j", 6, false, 0));
            ok && Bytes(c.lru) == 6 && Bytes(c'.lru) == 12
  {
    var kept, f := [Entry("k", 6, false, 0)], Faults(n => false, n => false);
    var c := Cache(kept, Disk(map["k" := Row(Metadata("k", 6, 200, [], 0, 0), 0)], map["k" := body], 0));
    assert kept[1..] == [];
    assert Bytes(kept) == 6 && PinnedBytes(kept) == 0;
    assert Index(kept).Keys == {"k"};
    assert Without(kept, "j") == kept;
    MakeSpaceIff(c, f, a, 10, 6, "");
    AddOrUpdateBoundIff(c, f, a, 10, Entry("j", 6, false, 0));
    NothingFreed(c, f, 10, 6);
  }

  lemma NothingFreed(c: Cache, f: Faults, maxSize: nat, request: nat)
    requires forall n :: !f.rowDeleted(n)
    ensures FreedBy(c, f, maxSize, request, "") == 0
  {
    var need := Bytes(c.lru) + request - maxSize;
    if need > 0 && Victims(c.lru, need).Some? {
      FreedNothing(c, f, Victims(c.lru, need).value, c.disk.deletions);
    }
  }

  lemma {:induction false} FreedNothing(c: Cache, f: Faults, ks: seq<string>, n: nat)
    requires forall m :: !f.rowDeleted(m)
    ensures Freed(c, f, ks, "", n) == 0
    decreases |ks|
  {
    if ks != [] {
      FreedNothing(c, f, ks[1..], n + 1);
    }
  }

  lemma {:induction false} RemoveEachEffect(c: Cache, f: Faults, ks: seq<string>)
    requires Unique(c.lru)
    ensures var (c', ok) := RemoveEach(c, f, ks);
            && Unique(c'.lru)
            && Bytes(c'.lru) <= Bytes(c.lru)
            && (forall k :: k !in ks ==> At(c', k) == At(c, k))
            && (forall k :: AfterRemoval(At(c, k), At(c', k)))
            && (FileDeletionsSucceed(f) ==> EvictedWhole(c, c'))
            && (ok ==> forall k :: k in ks ==> At(c', k) == GONE)
    decreases |ks|
  {
    if ks != [] {
      var c1 := BaseRemove(c, f, ks[0]).0;
      BaseRemoveEffect(c, f, ks[0]);
      RemoveEachEffect(c1, f, ks[1..]);
    }
  }

  lemma {:induction false} UnpinnedKeys(s: seq<Entry>, k: string)
    requires Unique(s)
    ensures k in KeysOf(Unpinned(s)) <==> k in Index(s) && Index(s)[k].refs == 0
    ensures k in KeysOf(s) <==> k in Index(s)
  {
    if s != [] {
      UniqueHead(s);
      UnpinnedKeys(s[1..], k);
      assert KeysOf(s) == [s[0].key] + KeysOf(s[1..]);
      if s[0].refs == 0 {
        assert KeysOf(Unpinned(s)) == [s[0].key] + KeysOf(Unpinned(s[1..]));
      }
    }
  }

  /** Clearing without force never touches an entry that is being read, and says whether it removed all of them. */
  lemma ClearEffect(c: Cache, f: Faults, mayDeleteIfBusy: bool)
    requires Unique(c.lru)
    ensures var (c', ok) := Clear(c, f, mayDeleteIfBusy);
            && Unique(c'.lru)
            && Bytes(c'.lru) <= Bytes(c.lru)
            && (forall k :: AfterRemoval(At(c, k), At(c', k)))
            && (forall k :: !mayDeleteIfBusy && At(c, k).entry.Some? && At(c, k).entry.value.refs > 0 ==>
                  At(c', k) == At(c, k))
            && (forall k :: At(c, k).entry.None? ==> At(c', k) == At(c, k))
            && (FileDeletionsSucceed(f) ==> EvictedWhole(c, c'))
            && (ok ==> c'.lru == [])
  {
    var ks := KeysOf(if mayDeleteIfBusy then c.lru else Unpinned(c.lru));
    var (c', ok) := RemoveEach(c, f, ks);
    RemoveEachEffect(c, f, ks);
    forall k ensures k in ks <==> k in Index(c.lru) && (mayDeleteIfBusy || Index(c.lru)[k].refs == 0) {
      UnpinnedKeys(c.lru, k);
    }
    if Clear(c, f, mayDeleteIfBusy).1 && c'.lru != [] {
      var k := c'.lru[0].key;
      assert At(c', k).entry.Some?;
      assert At(c, k).entry.Some?;
      assert KeysOf(c.lru) == ks;
      UnpinnedKeys(c.lru, k);
      assert false;
    }
  }
}
