/** Header lists as objects, and the merge that builds a new one. */
module HttpHeaders {
  import opened Text
  import opened HeaderMergeSpec

  /** No name is empty. */
  predicate Named(l: Fields) {
    forall i | 0 <= i < |l| :: l[i].name != ""
  }

  class Headers {
    var items: Fields

    ghost predicate Valid()
      reads this
    {
      Named(items)
    }

    constructor ()
      ensures items == [] && Valid()
    {
      items := [];
    }

    method Find(name: string) returns (i: nat)
      ensures i <= |items| && (i < |items| <==> HeaderMergeSpec.Has(items, name))
      ensures i < |items| ==> Same(items[i].name, name)
      ensures forall j | 0 <= j < i :: !Same(items[j].name, name)
    {
      i := 0;
      while i < |items| && !Same(items[i].name, name)
        invariant i <= |items|
        invariant forall j | 0 <= j < i :: !Same(items[j].name, name)
        invariant HeaderMergeSpec.Has(items, name) <==> HeaderMergeSpec.Has(items[i..], name)
      {
        assert items[i..][1..] == items[i + 1..];
        i := i + 1;
      }
      if i < |items| {
        assert items[i..][0] == items[i];
      }
    }

    method Has(name: string) returns (has: bool)
      ensures has <==> HeaderMergeSpec.Has(items, name)
    {
      var i := Find(name);
      has := i < |items|;
    }

    /** Throws for an empty name. */
    method Add(f: Field) returns (threw: bool)
      requires Valid()
      modifies this
      ensures Valid() && (threw <==> f.name == "")
      ensures items == if threw then old(items) else Insert(old(items), f)
    {
      if f.name == "" {
        return true;
      }
      var i := Find(f.name);
      ghost var start := i;
      while i < |items| && Same(items[i].name, f.name)
        invariant start <= i <= |items|
        invariant forall j | start <= j < i :: Same(items[j].name, f.name)
      {
        i := i + 1;
      }
      InsertAt(items, f, start, i);
      items := items[..i] + [f] + items[i..];
      threw := false;
    }
  }

  lemma {:induction false} AfterRunAt(l: Fields, f: Field, i: nat)
    requires i <= |l| && forall j | 0 <= j < i :: Same(l[j].name, f.name)
    requires i < |l| ==> !Same(l[i].name, f.name)
    ensures AfterRun(l, f) == l[..i] + [f] + l[i..]
  {
    if i > 0 {
      AfterRunAt(l[1..], f, i - 1);
      assert l[1..][i - 1..] == l[i..] && [l[0]] + l[1..][..i - 1] == l[..i];
    }
  }

  /** Where an insertion puts a field: past the names that differ and then past the equal ones. */
  lemma {:induction false} InsertAt(l: Fields, f: Field, start: nat, i: nat)
    requires start <= i <= |l| && forall j | 0 <= j < start :: !Same(l[j].name, f.name)
    requires start < |l| ==> Same(l[start].name, f.name)
    requires forall j | start <= j < i :: Same(l[j].name, f.name)
    requires i < |l| ==> !Same(l[i].name, f.name)
    ensures Insert(l, f) == l[..i] + [f] + l[i..]
  {
    if start == 0 {
      AfterRunAt(l, f, i);
    } else {
      InsertAt(l[1..], f, start - 1, i - 1);
      assert l[1..][i - 1..] == l[i..] && [l[0]] + l[1..][..i - 1] == l[..i];
    }
  }

  lemma CacheFieldAdded(cache: Fields, network: Fields, i: nat)
    requires i < |cache|
    ensures var before, after := CacheFields(cache[..i], network), CacheFields(cache[..i + 1], network);
            AddAll([], after) == if FromCache(cache[i], network) then Insert(AddAll([], before), cache[i])
                                 else AddAll([], before)
  {
    var before := CacheFields(cache[..i], network);
    assert cache[..i + 1][..i] == cache[..i];
    assert (before + [cache[i]])[..|before|] == before;
    assert before + [] == before;
  }

  lemma NetworkFieldAdded(kept: Fields, network: Fields, i: nat)
    requires i < |network|
    ensures var before, after := NetworkFields(network[..i]), NetworkFields(network[..i + 1]);
            AddAll(kept, after) == if FromNetwork(network[i]) then Insert(AddAll(kept, before), network[i])
                                   else AddAll(kept, before)
  {
    var before := NetworkFields(network[..i]);
    assert network[..i + 1][..i] == network[..i];
    assert (before + [network[i]])[..|before|] == before;
    assert before + [] == before;
  }

  method CombineCacheAndNetworkHeader(cache: Headers, network: Headers) returns (h: Headers)
    requires cache.Valid() && network.Valid()
    ensures fresh(h) && h.Valid() && h.items == Merge(cache.items, network.items)
  {
    h := new Headers();
    AddFromCache(h, cache, network, cache.items, network.items);
    AddFromNetwork(h, network, h.items, network.items);
  }

  /** Adds what is kept of the stored headers. */
  method AddFromCache(h: Headers, cache: Headers, network: Headers, ghost cs: Fields, ghost ns: Fields)
    requires h.Valid() && h.items == [] && cache.Valid() && h != cache && h != network
    requires cs == cache.items && ns == network.items
    modifies h
    ensures h.Valid() && h.items == AddAll([], CacheFields(cs, ns))
  {
    var i := 0;
    while i < |cache.items|
      invariant i <= |cs| && cache.items == cs && network.items == ns && h.Valid()
      invariant h.items == AddAll([], CacheFields(cs[..i], ns))
    {
      CacheFieldAdded(cs, ns, i);
      Keep(h, cache.items[i], network, ns);
      i := i + 1;
    }
    assert cs[..i] == cs;
  }

  /** Adds a stored header unless it is a transient warning or replaced by the network. */
  method Keep(h: Headers, f: Field, network: Headers, ghost ns: Fields)
    requires h.Valid() && f.name != "" && h != network && ns == network.items
    modifies h
    ensures h.Valid() && h.items == if FromCache(f, ns) then Insert(old(h.items), f) else old(h.items)
  {
    if Same(f.name, "Warning") && f.value != [] && f.value[0] == '1' {
      return;
    }
    var replaced := network.Has(f.name);
    if Same(f.name, "Content-Length") || !EndToEnd(f.name) || !replaced {
      var threw := h.Add(f);
    }
  }

  /** Adds the headers of the network response that go end to end. */
  method AddFromNetwork(h: Headers, network: Headers, ghost kept: Fields, ghost ns: Fields)
    requires h.Valid() && h.items == kept && network.Valid() && h != network && ns == network.items
    modifies h
    ensures h.Valid() && h.items == AddAll(kept, NetworkFields(ns))
  {
    var i := 0;
    while i < |network.items|
      invariant i <= |ns| && network.items == ns && h.Valid()
      invariant h.items == AddAll(kept, NetworkFields(ns[..i]))
    {
      var f := network.items[i];
      NetworkFieldAdded(kept, ns, i);
      i := i + 1;
      if !Same(f.name, "Content-Length") && EndToEnd(f.name) {
        var threw := h.Add(f);
      }
    }
    assert ns[..i] == ns;
  }
}
