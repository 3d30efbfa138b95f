/**
 Rebuilding the index at start-up. Rows arrive least recently accessed first and are added one by one, each
 evicting what it must. The result does not depend on that process: it is the longest run of most recent rows
 that fits.
 */
module CacheLoad {
  import opened Options
  import opened LruList
  import opened CacheSpec
  import opened FileCacheSpec

  /** The listed rows that could fit at all. */
  function Fitting(rows: map<string, Row>, order: seq<string>, maxSize: nat): seq<string> {
    if order == [] then []
    else if StoredSize(rows, order[0]) <= maxSize then [order[0]] + Fitting(rows, order[1..], maxSize)
    else Fitting(rows, order[1..], maxSize)
  }

  /** Index entries for `ks`, the last of them first. */
  function NewestFirst(rows: map<string, Row>, ks: seq<string>): seq<Entry> {
    seq(|ks|, j requires 0 <= j < |ks| =>
      Entry(ks[|ks| - 1 - j], StoredSize(rows, ks[|ks| - 1 - j]), false, 0))
  }

  /**
   The index holds the rows `live`, newest first, and they fit; the rows and files of `dead` and no others have been
   deleted; with the last of `dead` the rest would not have fitted.
   */
  ghost predicate Loaded(c: Cache, was: Disk, maxSize: nat, rows: map<string, Row>,
                         dead: seq<string>, live: seq<string>) {
    && c.lru == NewestFirst(rows, live)
    && Bytes(NewestFirst(rows, live)) <= maxSize
    && (dead != [] ==> Bytes(NewestFirst(rows, [dead[|dead| - 1]] + live)) > maxSize)
    && c.disk.rows == was.rows - ToSet(dead)
    && c.disk.files == was.files - ToSet(dead)
  }

  ghost predicate Distinct(ks: seq<string>) {
    forall i, j :: 0 <= i < j < |ks| ==> ks[i] != ks[j]
  }

  lemma NewestUnique(rows: map<string, Row>, ks: seq<string>)
    requires Distinct(ks)
    ensures Unique(NewestFirst(rows, ks))
    ensures forall k :: k in Index(NewestFirst(rows, ks)) <==> k in ks
    ensures PinnedBytes(NewestFirst(rows, ks)) == 0
  {
    var s := NewestFirst(rows, ks);
    forall k ensures k in Index(s) <==> k in ks {
      if k in ks {
        var i :| 0 <= i < |ks| && ks[i] == k;
        IndexAt(s, |ks| - 1 - i);
      }
      if k in Index(s) {
        var i := IndexFound(s, k);
      }
    }
    AllUnpinned(s);
  }

  lemma {:induction false} AllUnpinned(s: seq<Entry>)
    requires forall i :: 0 <= i < |s| ==> s[i].refs == 0
    ensures PinnedBytes(s) == 0 && Unpinned(s) == s
  {
    if s != [] {
      AllUnpinned(s[1..]);
    }
  }

  lemma {:induction false} KeepAll(s: seq<Entry>, gone: set<string>)
    requires forall i :: 0 <= i < |s| ==> s[i].key !in gone
    ensures Keep(s, gone) == s
  {
    if s != [] {
      KeepAll(s[1..], gone);
    }
  }

  lemma {:induction false} KeepNone(s: seq<Entry>, gone: set<string>)
    requires forall i :: 0 <= i < |s| ==> s[i].key in gone
    ensures Keep(s, gone) == []
  {
    if s != [] {
      KeepNone(s[1..], gone);
    }
  }

  /** Evicting a whole tail leaves the part before it. */
  lemma KeepPrefix(s: seq<Entry>, at: nat)
    requires Unique(s) && at <= |s|
    ensures Keep(s, ToSet(KeysOf(s[at..]))) == s[..at]
  {
    var gone := ToSet(KeysOf(s[at..]));
    assert s == s[..at] + s[at..];
    KeepSplit(s[..at], s[at..], gone);
    forall i | 0 <= i < |s[at..]| ensures s[at..][i].key in gone {
      assert KeysOf(s[at..])[i] == s[at..][i].key;
    }
    KeepNone(s[at..], gone);
    KeepAll(s[..at], gone);
  }

  /** In a list nobody reads the victims are the shortest tail that frees enough. */
  lemma VictimTail(s: seq<Entry>, need: nat) returns (at: nat)
    requires 0 < need <= Bytes(s)
    requires forall i :: 0 <= i < |s| ==> s[i].refs == 0
    ensures at < |s| && Victims(s, need) == Some(KeysOf(s[at..]))
    ensures Bytes(s[..at]) + need <= Bytes(s) < Bytes(s[..at + 1]) + need
  {
    AllUnpinned(s);
    VictimsFound(s, need);
    at := VictimsAreShortestTail(s, need);
    AllUnpinned(s[at..]);
    AllUnpinned(s[at + 1..]);
    BytesCut(s, at);
    BytesCut(s, at + 1);
  }

  lemma BytesCut(s: seq<Entry>, at: nat)
    requires at <= |s|
    ensures Bytes(s) == Bytes(s[..at]) + Bytes(s[at..])
  {
    assert s == s[..at] + s[at..];
    BytesSplit(s[..at], s[at..]);
  }

  /** The rows given up to free `need` bytes: the fewest of the oldest ones. */
  lemma OldestGoFirst(rows: map<string, Row>, left: seq<string>, need: nat) returns (drop: nat)
    requires Distinct(left) && 0 < need <= Bytes(NewestFirst(rows, left))
    ensures 0 < drop <= |left|
    ensures var s := NewestFirst(rows, left);
            && Victims(s, need).Some?
            && ToSet(Victims(s, need).value) == ToSet(left[..drop])
            && Keep(s, ToSet(Victims(s, need).value)) == NewestFirst(rows, left[drop..])
            && Bytes(NewestFirst(rows, left[drop..])) + need <= Bytes(s)
            && Bytes(s) < Bytes(NewestFirst(rows, left[drop - 1..])) + need
  {
    var s := NewestFirst(rows, left);
    var at := VictimTail(s, need);
    drop := |left| - at;
    NewestPrefix(rows, left, drop);
    NewestPrefix(rows, left, drop - 1);
    TailGone(rows, left, at, drop);
  }

  /** The entries behind `at` are those of the first rows. */
  lemma TailGone(rows: map<string, Row>, left: seq<string>, at: nat, drop: nat)
    requires Distinct(left) && at + drop == |left|
    ensures var s := NewestFirst(rows, left);
            && ToSet(KeysOf(s[at..])) == ToSet(left[..drop])
            && Keep(s, ToSet(KeysOf(s[at..]))) == s[..at]
  {
    NewestUnique(rows, left);
    KeepPrefix(NewestFirst(rows, left), at);
    SameKeys(rows, left, at);
  }

  lemma NewestPrefix(rows: map<string, Row>, ks: seq<string>, drop: nat)
    requires drop <= |ks|
    ensures NewestFirst(rows, ks)[..|ks| - drop] == NewestFirst(rows, ks[drop..])
  {
    var a, b := NewestFirst(rows, ks)[..|ks| - drop], NewestFirst(rows, ks[drop..]);
    forall j | 0 <= j < |ks| - drop ensures a[j] == b[j] {
      assert ks[drop..][|ks| - drop - 1 - j] == ks[|ks| - 1 - j];
    }
  }

  lemma SameKeys(rows: map<string, Row>, left: seq<string>, at: nat)
    requires at <= |left|
    ensures ToSet(KeysOf(NewestFirst(rows, left)[at..])) == ToSet(left[..|left| - at])
  {
    var gone, kept := KeysOf(NewestFirst(rows, left)[at..]), left[..|left| - at];
    assert |gone| == |kept|;
    forall i | 0 <= i < |kept| ensures kept[i] == gone[|gone| - 1 - i] {
    }
    forall i | 0 <= i < |kept| ensures gone[i] == kept[|kept| - 1 - i] {
    }
  }

  lemma Appended(rows: map<string, Row>, ks: seq<string>, k: string)
    ensures var e := Entry(k, StoredSize(rows, k), false, 0);
            && NewestFirst(rows, ks + [k]) == [e] + NewestFirst(rows, ks)
            && Bytes(NewestFirst(rows, ks + [k])) == e.size + Bytes(NewestFirst(rows, ks))
  {
    var e := Entry(k, StoredSize(rows, k), false, 0);
    assert NewestFirst(rows, ks + [k]) == [e] + NewestFirst(rows, ks);
    assert ([e] + NewestFirst(rows, ks))[1..] == NewestFirst(rows, ks);
  }

  lemma ToSetAppend(a: seq<string>, b: seq<string>)
    ensures ToSet(a + b) == ToSet(a) + ToSet(b)
  {
    forall k | k in ToSet(a + b) ensures k in ToSet(a) + ToSet(b) {
      var i :| 0 <= i < |a + b| && (a + b)[i] == k;
      assert if i < |a| then a[i] == k else b[i - |a|] == k;
    }
    forall k | k in ToSet(a) ensures k in ToSet(a + b) {
      var i :| 0 <= i < |a| && a[i] == k;
      assert (a + b)[i] == k;
    }
    forall k | k in ToSet(b) ensures k in ToSet(a + b) {
      var i :| 0 <= i < |b| && b[i] == k;
      assert (a + b)[|a| + i] == k;
    }
  }

  lemma MinusBoth<V>(m: map<string, V>, a: set<string>, b: set<string>)
    ensures m - a - b == m - (a + b)
  {
  }

  lemma DistinctParts(dead: seq<string>, live: seq<string>, more: seq<string>)
    requires Distinct(dead + live + more)
    ensures Distinct(live)
    ensures forall k :: k in live ==> k !in ToSet(dead) && k !in ToSet(more)
  {
    var all := dead + live + more;
    assert forall i :: 0 <= i < |dead| ==> all[i] == dead[i];
    assert forall i :: 0 <= i < |live| ==> all[|dead| + i] == live[i];
    assert forall i :: 0 <= i < |more| ==> all[|dead| + |live| + i] == more[i];
  }

  /** Making room for a row that fits gives up the fewest of the oldest live rows. */
  lemma SpaceGivesUpOldest(c: Cache, f: Faults, maxSize: nat, rows: map<string, Row>, live: seq<string>, size: nat)
    returns (drop: nat)
    requires DeletionsSucceed(f) && Distinct(live) && c.lru == NewestFirst(rows, live)
    requires size <= maxSize
    requires forall k :: k in live ==> k in c.disk.rows
    ensures drop <= |live|
    ensures var (c1, ok) := MakeSpace(c, f, ACCEPT, maxSize, size, "");
            var given := ToSet(live[..drop]);
            && ok
            && c1.lru == NewestFirst(rows, live[drop..])
            && Bytes(NewestFirst(rows, live[drop..])) + size <= maxSize
            && (drop > 0 ==> Bytes(NewestFirst(rows, live[drop - 1..])) + size > maxSize)
            && c1.disk.rows == c.disk.rows - given
            && c1.disk.files == c.disk.files - given
  {
    var s := NewestFirst(rows, live);
    NewestUnique(rows, live);
    MakeSpaceIff(c, f, ACCEPT, maxSize, size, "");
    var need := Bytes(s) + size - maxSize;
    if need <= 0 {
      drop := 0;
      NothingGone(live, c.disk.rows, c.disk.files);
    } else {
      drop := OldestGoFirst(rows, live, need);
      MakeSpaceGives(c, f, ACCEPT, maxSize, size);
    }
  }

  lemma NothingGone(live: seq<string>, rows: map<string, Row>, files: map<string, Body>)
    ensures live[0..] == live && ToSet(live[..0]) == {}
    ensures rows - {} == rows && files - {} == files
  {
  }

  lemma EnumerateLoads(c: Cache, was: Disk, f: Faults, maxSize: nat, rows: map<string, Row>,
                       dead: seq<string>, live: seq<string>, k: string) returns (drop: nat)
    requires DeletionsSucceed(f) && Distinct(live) && Loaded(c, was, maxSize, rows, dead, live)
    requires forall j :: j in live ==> j in c.disk.rows
    requires k !in live && StoredSize(rows, k) <= maxSize
    ensures drop <= |live|
    ensures Loaded(OnEnumerate(c, f, maxSize, k, StoredSize(rows, k)), was, maxSize, rows,
                   dead + live[..drop], live[drop..] + [k])
  {
    var e := Entry(k, StoredSize(rows, k), false, 0);
    drop := SpaceGivesUpOldest(c, f, maxSize, rows, live, e.size);
    var c1 := MakeSpace(c, f, ACCEPT, maxSize, e.size, "").0;
    NotListed(rows, live, drop, k);
    assert OnEnumerate(c, f, maxSize, k, e.size) == c1.(lru := [e] + c1.lru);
    Appended(rows, live[drop..], k);
    ToSetAppend(dead, live[..drop]);
    MinusBoth(was.rows, ToSet(dead), ToSet(live[..drop]));
    MinusBoth(was.files, ToSet(dead), ToSet(live[..drop]));
    LastGiven(c, was, maxSize, rows, dead, live, drop, k);
  }

  lemma NotListed(rows: map<string, Row>, live: seq<string>, drop: nat, k: string)
    requires drop <= |live| && k !in live
    ensures Without(NewestFirst(rows, live[drop..]), k) == NewestFirst(rows, live[drop..])
    ensures k !in Index(NewestFirst(rows, live[drop..]))
  {
    var s := NewestFirst(rows, live[drop..]);
    IndexAbsent(s, k);
    WithoutMissing(s, k);
  }

  /** With the last row given up the others and the new one would not fit. */
  lemma LastGiven(c: Cache, was: Disk, maxSize: nat, rows: map<string, Row>, dead: seq<string>, live: seq<string>,
                  drop: nat, k: string)
    requires Loaded(c, was, maxSize, rows, dead, live) && drop <= |live|
    requires drop > 0 ==> Bytes(NewestFirst(rows, live[drop - 1..])) + StoredSize(rows, k) > maxSize
    ensures var gone := dead + live[..drop];
            gone != [] ==> Bytes(NewestFirst(rows, [gone[|gone| - 1]] + (live[drop..] + [k]))) > maxSize
  {
    var gone := dead + live[..drop];
    if drop > 0 {
      assert [gone[|gone| - 1]] + (live[drop..] + [k]) == live[drop - 1..] + [k];
      Appended(rows, live[drop - 1..], k);
    } else if dead != [] {
      assert gone == dead && live[0..] == live;
      assert [gone[|gone| - 1]] + (live + [k]) == ([dead[|dead| - 1]] + live) + [k];
      Appended(rows, [dead[|dead| - 1]] + live, k);
    }
  }

  lemma {:induction false} LoadFrom(c: Cache, was: Disk, f: Faults, maxSize: nat, rows: map<string, Row>,
                                    dead: seq<string>, live: seq<string>, order: seq<string>)
    returns (dead': seq<string>, live': seq<string>)
    requires DeletionsSucceed(f) && Distinct(dead + live + order) && Loaded(c, was, maxSize, rows, dead, live)
    requires forall k :: k in dead + live + order ==> k in was.rows
    ensures dead' + live' == dead + live + Fitting(rows, order, maxSize)
    ensures Loaded(Load(c, f, maxSize, rows, order), was, maxSize, rows, dead', live')
    decreases |order|
  {
    if order == [] {
      dead', live' := dead, live;
    } else {
      var k := order[0];
      var size := StoredSize(rows, k);
      DistinctParts(dead, live, order);
      assert k in ToSet(order);
      if size <= maxSize {
        forall j | j in live ensures j in c.disk.rows {
          assert j in dead + live + order;
        }
        var drop := EnumerateLoads(c, was, f, maxSize, rows, dead, live, k);
        Regroup(dead, live, drop, k, order[1..]);
        Regroup(dead, live, drop, k, Fitting(rows, order[1..], maxSize));
        assert order == [k] + order[1..];
        dead', live' := LoadFrom(OnEnumerate(c, f, maxSize, k, size), was, f, maxSize, rows,
                                 dead + live[..drop], live[drop..] + [k], order[1..]);
      } else {
        MakeSpaceIff(c, f, ACCEPT, maxSize, size, "");
        DistinctSkip(dead + live, order);
        dead', live' := LoadFrom(c, was, f, maxSize, rows, dead, live, order[1..]);
      }
    }
  }

  lemma Regroup(dead: seq<string>, live: seq<string>, drop: nat, k: string, rest: seq<string>)
    requires drop <= |live|
    ensures dead + live[..drop] + (live[drop..] + [k]) + rest == dead + live + ([k] + rest)
  {
    assert live == live[..drop] + live[drop..];
  }

  lemma DistinctSkip(ks: seq<string>, order: seq<string>)
    requires order != [] && Distinct(ks + order)
    ensures Distinct(ks + order[1..])
    ensures forall k :: k in ks + order[1..] ==> k in ks + order
  {
    var all, some := ks + order, ks + order[1..];
    forall i | 0 <= i < |some| ensures some[i] == all[if i < |ks| then i else i + 1] {
    }
  }

  /**
   The start-up theorem: the rows no bigger than `maxSize` split into a part that is deleted, rows and files, and the
   longest suffix whose sizes fit, which is what the index ends with, newest first; bigger rows stay in the table.
   */
  lemma LoadIsLongestSuffix(c: Cache, f: Faults, maxSize: nat, order: seq<string>)
    returns (dead: seq<string>, live: seq<string>)
    requires DeletionsSucceed(f) && c.lru == [] && InOrder(c.disk.rows, order)
    ensures dead + live == Fitting(c.disk.rows, order, maxSize)
    ensures Loaded(Load(c, f, maxSize, c.disk.rows, order), c.disk, maxSize, c.disk.rows, dead, live)
  {
    assert [] + [] + order == order;
    assert c.disk.rows - {} == c.disk.rows && c.disk.files - {} == c.disk.files;
    assert ToSet([]) == {};
    dead, live := LoadFrom(c, c.disk, f, maxSize, c.disk.rows, [], [], order);
  }
}
