/**
 The recency list of the size-bounded LRU cache, as a plain sequence of entries, most recent first:
 the sequence functions the cache operations are specified by, and the choice of eviction victims.
 */
module LruList {
  import opened Options

  /** One cache information record: key, body size, deferred-removal flag and number of open readers. */
  datatype Entry = Entry(key: string, size: nat, reserved: bool, refs: nat)

  function Bytes(s: seq<Entry>): nat {
    if s == [] then 0 else s[0].size + Bytes(s[1..])
  }

  /** The entries of `s` by key (the first one, were a key to occur twice). */
  function Index(s: seq<Entry>): map<string, Entry> {
    if s == [] then map[] else Index(s[1..])[s[0].key := s[0]]
  }

  ghost predicate Unique(s: seq<Entry>) {
    forall i, j :: 0 <= i < j < |s| ==> s[i].key != s[j].key
  }

  function Without(s: seq<Entry>, k: string): seq<Entry> {
    if s == [] then []
    else if s[0].key == k then Without(s[1..], k)
    else [s[0]] + Without(s[1..], k)
  }

  /** The move-to-front step: `e` becomes the most recent entry and replaces any entry of its key. */
  function ToFront(s: seq<Entry>, e: Entry): seq<Entry> {
    [e] + Without(s, e.key)
  }

  function Keep(s: seq<Entry>, gone: set<string>): seq<Entry> {
    if s == [] then []
    else if s[0].key in gone then Keep(s[1..], gone)
    else [s[0]] + Keep(s[1..], gone)
  }

  function Unpinned(s: seq<Entry>): seq<Entry> {
    if s == [] then []
    else if s[0].refs == 0 then [s[0]] + Unpinned(s[1..])
    else Unpinned(s[1..])
  }

  function KeysOf(s: seq<Entry>): seq<string> {
    seq(|s|, i requires 0 <= i < |s| => s[i].key)
  }

  function PinnedBytes(s: seq<Entry>): nat {
    if s == [] then 0 else (if s[0].refs == 0 then 0 else s[0].size) + PinnedBytes(s[1..])
  }

  /**
   The eviction scan: from the least recent end, skipping entries that are being read, collect keys
   until `need` bytes are found; None when the list ends first.
   */
  function Victims(s: seq<Entry>, need: int): Option<seq<string>> {
    if need <= 0 then Some([])
    else if s == [] then None
    else
      var rest, last := s[..|s| - 1], s[|s| - 1];
      if last.refs == 0 then
        match Victims(rest, need - last.size)
        case None => None
        case Some(ks) => Some(ks + [last.key])
      else Victims(rest, need)
  }

  // ---- sequence facts ----

  lemma {:induction false} IndexAt(s: seq<Entry>, i: nat)
    requires Unique(s) && i < |s|
    ensures s[i].key in Index(s) && Index(s)[s[i].key] == s[i]
  {
    if i > 0 {
      IndexAt(s[1..], i - 1);
      assert s[1..][i - 1] == s[i];
    }
  }

  lemma {:induction false} IndexFound(s: seq<Entry>, k: string) returns (i: nat)
    requires k in Index(s)
    ensures i < |s| && s[i] == Index(s)[k] && s[i].key == k
  {
    if s[0].key == k {
      i := 0;
    } else {
      var j := IndexFound(s[1..], k);
      i := j + 1;
    }
  }

  lemma {:induction false} IndexWithout(s: seq<Entry>, k: string)
    ensures Index(Without(s, k)) == Index(s) - {k}
  {
    if s != [] {
      IndexWithout(s[1..], k);
      if s[0].key != k {
        assert Without(s, k)[1..] == Without(s[1..], k);
      }
    }
  }

  lemma {:induction false} WithoutMissing(s: seq<Entry>, k: string)
    requires k !in Index(s)
    ensures Without(s, k) == s
  {
    if s != [] {
      WithoutMissing(s[1..], k);
    }
  }

  lemma IndexToFront(s: seq<Entry>, e: Entry)
    ensures Index(ToFront(s, e)) == Index(s)[e.key := e]
  {
    IndexWithout(s, e.key);
    assert ToFront(s, e)[1..] == Without(s, e.key);
  }

  lemma {:induction false} UniqueCons(e: Entry, s: seq<Entry>)
    requires Unique(s) && e.key !in Index(s)
    ensures Unique([e] + s)
  {
    forall i, j | 0 <= i < j < |[e] + s| ensures ([e] + s)[i].key != ([e] + s)[j].key {
      IndexAt(s, j - 1);
    }
  }

  lemma {:induction false} UniqueWithout(s: seq<Entry>, k: string)
    requires Unique(s)
    ensures Unique(Without(s, k))
  {
    if s != [] {
      UniqueWithout(s[1..], k);
      if s[0].key != k {
        IndexWithout(s[1..], k);
        UniqueHead(s);
        UniqueCons(s[0], Without(s[1..], k));
      }
    }
  }

  lemma {:induction false} UniqueHead(s: seq<Entry>)
    requires s != [] && Unique(s)
    ensures s[0].key !in Index(s[1..])
  {
    IndexAbsent(s[1..], s[0].key);
  }

  lemma {:induction false} IndexAbsent(s: seq<Entry>, k: string)
    requires forall i :: 0 <= i < |s| ==> s[i].key != k
    ensures k !in Index(s)
  {
    if s != [] {
      IndexAbsent(s[1..], k);
    }
  }

  lemma UniqueToFront(s: seq<Entry>, e: Entry)
    requires Unique(s)
    ensures Unique(ToFront(s, e))
  {
    UniqueWithout(s, e.key);
    IndexWithout(s, e.key);
    UniqueCons(e, Without(s, e.key));
  }

  lemma {:induction false} BytesWithout(s: seq<Entry>, k: string)
    requires Unique(s)
    ensures Bytes(s) == Bytes(Without(s, k)) + if k in Index(s) then Index(s)[k].size else 0
    ensures PinnedBytes(s)
         == PinnedBytes(Without(s, k)) + if k in Index(s) && Index(s)[k].refs > 0 then Index(s)[k].size else 0
  {
    if s != [] {
      UniqueHead(s);
      BytesWithout(s[1..], k);
      if s[0].key == k {
        WithoutMissing(s[1..], k);
      } else {
        assert Without(s, k)[1..] == Without(s[1..], k);
      }
    }
  }

  lemma {:induction false} BytesSplit(a: seq<Entry>, b: seq<Entry>)
    ensures Bytes(a + b) == Bytes(a) + Bytes(b)
    ensures PinnedBytes(a + b) == PinnedBytes(a) + PinnedBytes(b)
    ensures Unpinned(a + b) == Unpinned(a) + Unpinned(b)
  {
    if a == [] {
      assert a + b == b;
    } else {
      BytesSplit(a[1..], b);
      assert (a + b)[1..] == a[1..] + b;
    }
  }

  lemma {:induction false} PinnedPlusUnpinned(s: seq<Entry>)
    ensures Bytes(s) == PinnedBytes(s) + Bytes(Unpinned(s))
  {
    if s != [] {
      PinnedPlusUnpinned(s[1..]);
      if s[0].refs == 0 {
        assert Unpinned(s)[1..] == Unpinned(s[1..]);
      }
    }
  }

  lemma {:induction false} KeepWithout(s: seq<Entry>, k: string, gone: set<string>)
    ensures Keep(Without(s, k), gone) == Keep(s, gone + {k})
  {
    if s != [] {
      KeepWithout(s[1..], k, gone);
      if s[0].key != k {
        assert Without(s, k)[1..] == Without(s[1..], k);
      }
    }
  }

  lemma {:induction false} KeepNothing(s: seq<Entry>)
    ensures Keep(s, {}) == s
  {
    if s != [] {
      KeepNothing(s[1..]);
    }
  }

  lemma {:induction false} WithoutKeep(s: seq<Entry>, k: string, gone: set<string>)
    ensures Without(Keep(s, gone), k) == Keep(s, gone + {k})
  {
    if s != [] {
      WithoutKeep(s[1..], k, gone);
      if s[0].key !in gone {
        assert Keep(s, gone)[1..] == Keep(s[1..], gone);
      }
    }
  }

  lemma {:induction false} KeepSplit(a: seq<Entry>, b: seq<Entry>, gone: set<string>)
    ensures Keep(a + b, gone) == Keep(a, gone) + Keep(b, gone)
  {
    if a == [] {
      assert a + b == b;
    } else {
      KeepSplit(a[1..], b, gone);
      assert (a + b)[0] == a[0] && (a + b)[1..] == a[1..] + b;
      assert Keep(a + b, gone) == (if a[0].key in gone then [] else [a[0]]) + Keep(a[1..] + b, gone);
    }
  }

  lemma {:induction false} KeepIrrelevant(s: seq<Entry>, gone: set<string>, k: string)
    requires forall i :: 0 <= i < |s| ==> s[i].key != k
    ensures Keep(s, gone + {k}) == Keep(s, gone)
  {
    if s != [] {
      KeepIrrelevant(s[1..], gone, k);
    }
  }

  lemma {:induction false} BytesKeep(s: seq<Entry>, gone: set<string>)
    ensures Bytes(Keep(s, gone)) <= Bytes(s)
  {
    if s != [] {
      BytesKeep(s[1..], gone);
      if s[0].key !in gone {
        assert Keep(s, gone)[1..] == Keep(s[1..], gone);
      }
    }
  }

  function ToSet(ks: seq<string>): set<string> {
    set i | 0 <= i < |ks| :: ks[i]
  }

  // ---- the victims ----

  /** The scan finds enough bytes exactly when the entries nobody reads hold that many. */
  lemma {:induction false} VictimsFound(s: seq<Entry>, need: int)
    ensures Victims(s, need).Some? <==> need <= Bytes(Unpinned(s))
  {
    if need > 0 && s != [] {
      var rest, last := s[..|s| - 1], s[|s| - 1];
      assert s == rest + [last];
      BytesSplit(rest, [last]);
      BytesSplit(Unpinned(rest), Unpinned([last]));
      assert [last][1..] == [];
      if last.refs == 0 {
        assert Unpinned([last]) == [last];
        VictimsFound(rest, need - last.size);
      } else {
        assert Unpinned([last]) == [];
        VictimsFound(rest, need);
      }
    }
  }

  /**
   Which entries the scan takes: the unpinned ones of the shortest tail of the list that holds `need`
   unpinned bytes, in list order. The tail `s[at..]` is shortest because `s[at + 1..]` does not hold enough.
   */
  lemma {:induction false} VictimsAreShortestTail(s: seq<Entry>, need: int) returns (at: nat)
    requires need > 0 && Victims(s, need).Some?
    ensures at < |s|
    ensures Victims(s, need).value == KeysOf(Unpinned(s[at..]))
    ensures Bytes(Unpinned(s[at..])) >= need > Bytes(Unpinned(s[at + 1..]))
  {
    var rest, last := s[..|s| - 1], s[|s| - 1];
    var more := if last.refs == 0 then need - last.size else need;
    if more <= 0 {
      at := |s| - 1;
      UnpinnedTail(s, at);
      assert rest[at..] == [] && s[at + 1..] == [];
      assert Victims(rest, more) == Some([]);
    } else {
      at := VictimsAreShortestTail(rest, more);
      UnpinnedTail(s, at);
      UnpinnedTail(s, at + 1);
    }
  }

  /** The last entry of a list in the unpinned part of one of its tails. */
  lemma UnpinnedTail(s: seq<Entry>, at: nat)
    requires at < |s|
    ensures var rest, last := s[..|s| - 1], s[|s| - 1];
            var mine := if last.refs == 0 then [last] else [];
            && Unpinned(s[at..]) == Unpinned(rest[at..]) + mine
            && Bytes(Unpinned(s[at..])) == Bytes(Unpinned(rest[at..])) + (if last.refs == 0 then last.size else 0)
            && KeysOf(Unpinned(s[at..])) == KeysOf(Unpinned(rest[at..])) + (if last.refs == 0 then [last.key] else [])
  {
    var rest, last := s[..|s| - 1], s[|s| - 1];
    var mine := if last.refs == 0 then [last] else [];
    assert s[at..] == rest[at..] + [last];
    assert [last][1..] == [] && Unpinned([last]) == mine && Bytes(mine) == if last.refs == 0 then last.size else 0;
    BytesSplit(rest[at..], [last]);
    BytesSplit(Unpinned(rest[at..]), mine);
  }

  /** Every victim is an entry of the list that nobody reads, and no key is taken twice. */
  lemma {:induction false} VictimsUnpinned(s: seq<Entry>, need: int)
    requires Unique(s) && Victims(s, need).Some?
    ensures forall k :: k in Victims(s, need).value ==> k in Index(s) && Index(s)[k].refs == 0
    ensures var ks := Victims(s, need).value; forall i, j :: 0 <= i < j < |ks| ==> ks[i] != ks[j]
  {
    if need > 0 {
      var rest, last := s[..|s| - 1], s[|s| - 1];
      var more := if last.refs == 0 then need - last.size else need;
      VictimsUnpinned(rest, more);
      IndexAt(s, |s| - 1);
      forall k | k in Victims(rest, more).value
        ensures k in Index(s) && Index(s)[k].refs == 0 && k != last.key
      {
        var i := IndexFound(rest, k);
        IndexAt(s, i);
      }
    }
  }

  /** Without its victims the list holds at least `need` bytes less. */
  lemma {:induction false} VictimsFree(s: seq<Entry>, need: int)
    requires Unique(s) && Victims(s, need).Some?
    ensures Bytes(Keep(s, ToSet(Victims(s, need).value))) <= Bytes(s) - need || need <= 0
  {
    if need > 0 {
      var rest, last := s[..|s| - 1], s[|s| - 1];
      assert s == rest + [last];
      var more := if last.refs == 0 then need - last.size else need;
      var gone := ToSet(Victims(rest, more).value);
      VictimsFree(rest, more);
      BytesSplit(rest, [last]);
      assert [last][1..] == [];
      BytesKeep(rest, gone);
      VictimsUnpinned(rest, more);
      if last.refs == 0 {
        assert ToSet(Victims(s, need).value) == gone + {last.key} by {
          var ks := Victims(rest, more).value;
          assert Victims(s, need).value == ks + [last.key];
          assert forall i :: 0 <= i < |ks| ==> (ks + [last.key])[i] == ks[i];
          assert (ks + [last.key])[|ks|] == last.key;
        }
        KeepSplit(rest, [last], gone + {last.key});
        KeepIrrelevant(rest, gone, last.key);
        assert Keep([last], gone + {last.key}) == [];
        assert Keep(s, gone + {last.key}) == Keep(rest, gone);
      } else {
        KeepSplit(rest, [last], gone);
        BytesSplit(Keep(rest, gone), Keep([last], gone));
        BytesKeep([last], gone);
      }
    }
  }

  /** An unread entry at the front is taken only if all others are not enough, and is then the first of the victims. */
  lemma {:induction false} VictimsFront(e: Entry, s: seq<Entry>, need: int)
    requires e.refs == 0 && forall i | 0 <= i < |s| :: s[i].key != e.key
    ensures var found := Victims([e] + s, need);
            found.Some? ==>
              && (e.key in found.value <==> need > Bytes(Unpinned(s)))
              && (e.key in found.value ==> found.value[0] == e.key)
  {
    var all, n := [e] + s, |s|;
    if need > 0 && n == 0 {
      assert all[..0] == [] && all[0] == e;
      assert Victims([], need - e.size).Some? ==> Victims(all, need).value == [] + [e.key];
    } else if need > 0 {
      var init, last := s[..n - 1], s[n - 1];
      assert all[..n] == [e] + init && all[n] == last;
      assert s == init + [last];
      BytesSplit(init, [last]);
      assert [last][1..] == [];
      BytesSplit(Unpinned(init), Unpinned([last]));
      VictimsFront(e, init, if last.refs == 0 then need - last.size else need);
    }
  }
}
