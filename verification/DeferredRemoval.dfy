/**
 Deferred removal: an entry that is removed while it is being read refuses every new use until the last reader
 releases it, and that release removes its index entry, its row and its file.
 */
module DeferredRemoval {
  import opened Options
  import opened LruList
  import opened CacheSpec
  import opened FileCacheSpec
  import opened FileCacheRuns

  predicate Due(c: Cache, k: string) {
    k in Index(c.lru) && Index(c.lru)[k].reserved
  }

  /** The calls that would use the entry of `k`. */
  predicate Uses(call: Call, k: string) {
    (call.GetMetadata? || call.GetData? || call.Get? || call.PutMetadata? || call.Put?) && call.key == k
  }

  /** Removing an entry that is being read succeeds, leaves its body to the readers, and makes it due. */
  lemma RemoveDefers(w: World, k: string, o: Outcome, maxSize: nat)
    requires Tracks(w) && OpenOn(w, k) != []
    ensures var e := Event(Remove(k), o, 0);
            var (st, reply) := Step(w.st, e.call, o, maxSize);
            && reply.ok && Due(st.cache, k)
            && OpenOn(Advance(w, e, maxSize), k) == OpenOn(w, k)
            && At(st.cache, k).body == At(w.st.cache, k).body
  {
    assert RefsOf(At(w.st.cache, k)) > 0 && w.st.ready;
    RemoveKeeps(w.st.cache, o.faults, k);
  }

  /** An entry that is due refuses every use, and the attempt changes nothing about it. */
  lemma DueRefuses(c: Cache, call: Call, o: Outcome, maxSize: nat, k: string)
    requires Unique(c.lru) && Due(c, k) && Uses(call, k)
    ensures var (c', reply) := Do(c, call, o, maxSize);
            reply == NO && At(c', k) == At(c, k)
  {
    GetKeeps(c, k);
    var c1 := CacheSpec.Get(c, ACCEPT, k).0;
    assert At(c1, k) == At(c, k);
  }

  /** While somebody reads it, an entry that is due stays due, and no call adds a reader. */
  lemma StaysDue(w: World, e: Event, maxSize: nat, k: string)
    requires Tracks(w) && Legal(w, e) && Due(w.st.cache, k) && OpenOn(w, k) != []
    requires OpenOn(Advance(w, e, maxSize), k) != []
    ensures Due(Advance(w, e, maxSize).st.cache, k)
    ensures |OpenOn(Advance(w, e, maxSize), k)| <= |OpenOn(w, k)|
    ensures Uses(e.call, k) ==> Step(w.st, e.call, e.o, maxSize).1 == NO
  {
    var c := w.st.cache;
    assert RefsOf(At(c, k)) > 0;
    assert w.st.ready;
    DoEffect(c, e.call, e.o, maxSize, k);
    if Uses(e.call, k) {
      DueRefuses(c, e.call, e.o, maxSize, k);
    }
    StepTracks(w, e, maxSize);
  }

  /** Somebody reads `k` at every moment of the run. */
  ghost predicate Reading(w: World, es: seq<Event>, maxSize: nat, k: string)
    decreases |es|
  {
    OpenOn(w, k) != [] && (es != [] ==> Reading(Advance(w, es[0], maxSize), es[1..], maxSize, k))
  }

  /** Every use of `k` during the run is refused. */
  ghost predicate AllRefused(w: World, es: seq<Event>, maxSize: nat, k: string)
    decreases |es|
  {
    es != [] ==>
      && (Uses(es[0].call, k) ==> Step(w.st, es[0].call, es[0].o, maxSize).1 == NO)
      && AllRefused(Advance(w, es[0], maxSize), es[1..], maxSize, k)
  }

  /** The deferred removal theorem over runs, whatever else is called and whatever fails. */
  lemma {:induction false} DueUntilReleased(w: World, es: seq<Event>, maxSize: nat, w': World, k: string)
    requires Tracks(w) && Run(w, es, maxSize, w') && Due(w.st.cache, k) && Reading(w, es, maxSize, k)
    ensures Due(w'.st.cache, k) && |OpenOn(w', k)| <= |OpenOn(w, k)|
    ensures AllRefused(w, es, maxSize, k)
    decreases |es|
  {
    if es != [] {
      var w1 := Advance(w, es[0], maxSize);
      StaysDue(w, es[0], maxSize, k);
      StepTracks(w, es[0], maxSize);
      DueUntilReleased(w1, es[1..], maxSize, w', k);
    }
  }

  /**
   The last release of an entry that is due removes it from index, table and files exactly when both deletions
   work; otherwise the entry stays, due and unread.
   */
  lemma LastReleaseRemoves(w: World, e: Event, k: string, maxSize: nat)
    requires Tracks(w) && e.call == ReleaseData(k) && Legal(w, e)
    requires Due(w.st.cache, k) && |OpenOn(w, k)| == 1
    requires At(w.st.cache, k).row.Some?
    ensures var c, c' := w.st.cache, Advance(w, e, maxSize).st.cache;
            var n := c.disk.deletions;
            && (At(c', k) == GONE <==> e.o.faults.rowDeleted(n) && e.o.faults.fileDeleted(n))
            && (At(c', k) != GONE ==> Due(c', k) && Index(c'.lru)[k].refs == 0)
  {
    var c := w.st.cache;
    assert RefsOf(At(c, k)) == 1;
    assert At(c, k).body == Some(OpenOn(w, k)[0]);
    GetKeeps(c, k);
    var c1 := CacheSpec.Get(c, ACCEPT, k).0;
    assert At(c1, k) == At(c, k);
    var left := Index(c.lru)[k].(refs := 0);
    UniqueToFront(c1.lru, left);
    IndexToFront(c1.lru, left);
    var c2 := c1.(lru := ToFront(c1.lru, left));
    assert BaseUpdate(c1, e.o.faults, ACCEPT, maxSize, left) == (c2, true);
    BaseRemoveEffect(c2, e.o.faults, k);
  }
}
