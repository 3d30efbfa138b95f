/**
 Header lists with case-insensitive names, and the merge of a stored response's headers with those of the response
 that revalidated it (sections 13.5.1 and 13.5.3 of RFC 2616).
 */
module HeaderMergeSpec {
  import opened Text

  datatype Field = Field(name: string, value: string)

  type Fields = seq<Field>

  predicate Has(l: Fields, name: string) {
    l != [] && (Same(l[0].name, name) || Has(l[1..], name))
  }

  /** The values of a name, in order. */
  function ValuesOf(l: Fields, name: string): seq<string> {
    if l == [] then []
    else (if Same(l[0].name, name) then [l[0].value] else []) + ValuesOf(l[1..], name)
  }

  /** After the run of equal names that the list begins with. */
  function AfterRun(l: Fields, f: Field): Fields {
    if l != [] && Same(l[0].name, f.name) then [l[0]] + AfterRun(l[1..], f) else [f] + l
  }

  /** A new field goes after the first run of equal names, or to the end if there is none. */
  function Insert(l: Fields, f: Field): Fields {
    if l != [] && !Same(l[0].name, f.name) then [l[0]] + Insert(l[1..], f) else AfterRun(l, f)
  }

  function AddAll(l: Fields, fs: Fields): Fields {
    if fs == [] then l else Insert(AddAll(l, fs[..|fs| - 1]), fs[|fs| - 1])
  }

  predicate EndToEnd(name: string) {
    && !Same(name, "Connection") && !Same(name, "Keep-Alive") && !Same(name, "Proxy-Authenticate")
    && !Same(name, "Proxy-Authorization") && !Same(name, "TE") && !Same(name, "Trailers")
    && !Same(name, "Transfer-Encoding") && !Same(name, "Upgrade")
  }

  predicate Transient(f: Field) {
    Same(f.name, "Warning") && f.value != [] && f.value[0] == '1'
  }

  predicate FromCache(f: Field, network: Fields) {
    !Transient(f) && (Same(f.name, "Content-Length") || !EndToEnd(f.name) || !Has(network, f.name))
  }

  predicate FromNetwork(f: Field) {
    !Same(f.name, "Content-Length") && EndToEnd(f.name)
  }

  function CacheFields(cache: Fields, network: Fields): Fields {
    if cache == [] then []
    else CacheFields(cache[..|cache| - 1], network)
         + if FromCache(cache[|cache| - 1], network) then [cache[|cache| - 1]] else []
  }

  function NetworkFields(network: Fields): Fields {
    if network == [] then []
    else NetworkFields(network[..|network| - 1])
         + if FromNetwork(network[|network| - 1]) then [network[|network| - 1]] else []
  }

  function Merge(cache: Fields, network: Fields): Fields {
    AddAll(AddAll([], CacheFields(cache, network)), NetworkFields(network))
  }

  // ---- lists ----

  /** Equal names stand together. */
  predicate Grouped(l: Fields) {
    l == [] || (Grouped(l[1..]) && (Has(l[1..], l[0].name) ==> Same(l[1].name, l[0].name)))
  }

  lemma {:induction false} HasSnoc(l: Fields, f: Field, name: string)
    ensures Has(l + [f], name) <==> Has(l, name) || Same(f.name, name)
    ensures ValuesOf(l + [f], name) == ValuesOf(l, name) + if Same(f.name, name) then [f.value] else []
  {
    if l == [] {
      assert [f][1..] == [];
    } else {
      assert (l + [f])[1..] == l[1..] + [f];
      HasSnoc(l[1..], f, name);
    }
  }

  lemma {:induction false} HasIffValues(l: Fields, name: string)
    ensures Has(l, name) <==> ValuesOf(l, name) != []
  {
    if l != [] {
      HasIffValues(l[1..], name);
    }
  }

  lemma {:induction false} AfterRunHas(l: Fields, f: Field, name: string)
    ensures Has(AfterRun(l, f), name) <==> Has(l, name) || Same(f.name, name)
    ensures |AfterRun(l, f)| == |l| + 1 && Same(AfterRun(l, f)[0].name, f.name)
  {
    if l != [] && Same(l[0].name, f.name) {
      AfterRunHas(l[1..], f, name);
      assert AfterRun(l, f)[1..] == AfterRun(l[1..], f);
    } else {
      assert AfterRun(l, f)[1..] == l;
    }
  }

  lemma {:induction false} AfterRunValues(l: Fields, f: Field, name: string)
    requires Grouped(l) && (l == [] || Same(l[0].name, f.name) || !Has(l, f.name))
    ensures ValuesOf(AfterRun(l, f), name) == ValuesOf(l, name) + if Same(f.name, name) then [f.value] else []
    ensures Grouped(AfterRun(l, f))
  {
    if l != [] && Same(l[0].name, f.name) {
      if l[1..] != [] && !Same(l[1].name, l[0].name) {
        assert !Has(l[1..], l[0].name);
        SameHas(l[1..], l[0].name, f.name);
      }
      AfterRunValues(l[1..], f, name);
      AfterRunHas(l[1..], f, name);
      assert AfterRun(l, f)[1..] == AfterRun(l[1..], f);
    } else {
      assert AfterRun(l, f)[1..] == l;
      if Same(f.name, name) {
        SameHas(l, f.name, name);
        HasIffValues(l, name);
      }
    }
  }

  lemma {:induction false} SameHas(l: Fields, a: string, b: string)
    requires Same(a, b)
    ensures Has(l, a) <==> Has(l, b)
    ensures ValuesOf(l, a) == ValuesOf(l, b)
  {
    if l != [] {
      SameHas(l[1..], a, b);
    }
  }

  lemma {:induction false} InsertHas(l: Fields, f: Field, name: string)
    ensures Has(Insert(l, f), name) <==> Has(l, name) || Same(f.name, name)
  {
    if l != [] && !Same(l[0].name, f.name) {
      InsertHas(l[1..], f, name);
      assert Insert(l, f)[1..] == Insert(l[1..], f);
    } else {
      AfterRunHas(l, f, name);
    }
  }

  /** On a grouped list an insertion appends to the values of its name, changes no others and keeps the list grouped. */
  lemma {:induction false} InsertValues(l: Fields, f: Field, name: string)
    requires Grouped(l)
    ensures ValuesOf(Insert(l, f), name) == ValuesOf(l, name) + if Same(f.name, name) then [f.value] else []
    ensures Has(Insert(l, f), name) <==> Has(l, name) || Same(f.name, name)
    ensures Grouped(Insert(l, f))
    ensures |Insert(l, f)| == |l| + 1
    ensures l != [] && !Same(l[0].name, f.name) ==> Insert(l, f)[0] == l[0]
  {
    if l != [] && !Same(l[0].name, f.name) {
      InsertValues(l[1..], f, name);
      InsertValues(l[1..], f, l[0].name);
      assert Insert(l, f)[1..] == Insert(l[1..], f);
      if Has(Insert(l[1..], f), l[0].name) {
        assert Has(l[1..], l[0].name) && Same(l[1].name, l[0].name);
        assert !Same(l[1..][0].name, f.name);
      }
    } else {
      AfterRunValues(l, f, name);
      AfterRunHas(l, f, name);
    }
  }

  lemma {:induction false} AddAllValues(l: Fields, fs: Fields, name: string)
    requires Grouped(l)
    ensures ValuesOf(AddAll(l, fs), name) == ValuesOf(l, name) + ValuesOf(fs, name)
    ensures Has(AddAll(l, fs), name) <==> Has(l, name) || Has(fs, name)
    ensures Grouped(AddAll(l, fs))
    decreases |fs|
  {
    if fs != [] {
      var init, f := fs[..|fs| - 1], fs[|fs| - 1];
      assert fs == init + [f];
      AddAllValues(l, init, name);
      InsertValues(AddAll(l, init), f, name);
      HasSnoc(init, f, name);
    }
  }

  lemma {:induction false} InsertApart(a: Fields, l: Fields, f: Field)
    requires !Has(a, f.name)
    ensures Insert(a + l, f) == a + Insert(l, f)
  {
    if a == [] {
      assert a + l == l;
    } else {
      var rest := a[1..];
      InsertApart(rest, l, f);
      assert a + l == [a[0]] + (rest + l);
      InsertPast(a[0], rest + l, f);
      assert [a[0]] + (rest + Insert(l, f)) == a + Insert(l, f);
    }
  }

  lemma InsertPast(first: Field, l: Fields, f: Field)
    requires !Same(first.name, f.name)
    ensures Insert([first] + l, f) == [first] + Insert(l, f)
  {
    assert ([first] + l)[1..] == l;
  }

  /** Fields of names that a list does not have are added after it as they would be to an empty list. */
  lemma {:induction false} AddAllApart(a: Fields, fs: Fields)
    requires forall f | f in fs :: !Has(a, f.name)
    ensures AddAll(a, fs) == a + AddAll([], fs)
    decreases |fs|
  {
    if fs == [] {
      assert a + [] == a;
    } else {
      var init, f := fs[..|fs| - 1], fs[|fs| - 1];
      assert f in fs && forall g | g in init :: g in fs;
      AddAllApart(a, init);
      InsertApart(a, AddAll([], init), f);
    }
  }

  /** A field of a new name goes to the end. */
  lemma {:induction false} InsertNew(l: Fields, f: Field)
    requires !Has(l, f.name)
    ensures Insert(l, f) == l + [f]
  {
    if l != [] {
      InsertNew(l[1..], f);
    }
  }

  lemma {:induction false} InsertLast(l: Fields, f: Field)
    requires Grouped(l + [f])
    ensures Insert(l, f) == l + [f] && Grouped(l)
  {
    if l == [] {
      assert l + [f] == [f];
    } else {
      assert (l + [f])[1..] == l[1..] + [f];
      InsertLast(l[1..], f);
      HasSnoc(l[1..], f, l[0].name);
      if Same(l[0].name, f.name) {
        AfterRunLast(l, f);
      } else if Has(l[1..], l[0].name) {
        assert l[1..] != [] && (l + [f])[1] == l[1];
      }
    }
  }

  lemma {:induction false} AfterRunLast(l: Fields, f: Field)
    requires Grouped(l + [f]) && l != [] && Same(l[0].name, f.name)
    ensures AfterRun(l, f) == l + [f] && Grouped(l)
  {
    assert (l + [f])[1..] == l[1..] + [f];
    HasSnoc(l[1..], f, l[0].name);
    if l[1..] == [] {
      assert AfterRun([], f) == [f];
    } else {
      assert (l + [f])[1] == l[1];
      AfterRunLast(l[1..], f);
    }
  }

  /** Adding the fields of a grouped list one by one builds the same list. */
  lemma {:induction false} AddAllRebuilds(l: Fields)
    requires Grouped(l)
    ensures AddAll([], l) == l
    decreases |l|
  {
    if l != [] {
      var init, f := l[..|l| - 1], l[|l| - 1];
      assert l == init + [f];
      InsertLast(init, f);
      AddAllRebuilds(init);
    }
  }

  // ---- what is kept ----

  /** The warnings that are not to be dropped. */
  function Lasting(values: seq<string>): seq<string> {
    if values == [] then []
    else
      var last := values[|values| - 1];
      Lasting(values[..|values| - 1]) + if last != [] && last[0] == '1' then [] else [last]
  }

  predicate KeptFromCache(name: string, network: Fields) {
    Same(name, "Content-Length") || !EndToEnd(name) || !Has(network, name)
  }

  lemma SameClass(a: string, b: string, network: Fields)
    requires Same(a, b)
    ensures KeptFromCache(a, network) <==> KeptFromCache(b, network)
    ensures Same(a, "Warning") <==> Same(b, "Warning")
    ensures Same(a, "Content-Length") <==> Same(b, "Content-Length")
    ensures EndToEnd(a) <==> EndToEnd(b)
  {
    SameHas(network, a, b);
  }

  lemma WarningIsEndToEnd(name: string)
    requires Same(name, "Warning")
    ensures EndToEnd(name) && !Same(name, "Content-Length")
  {
    assert |Lower(name)| == 7 && Lower(name)[0] == 'w';
    assert |Lower("Upgrade")| == 7 && Lower("Upgrade")[0] == 'u';
    assert |Lower("Connection")| == 10 && |Lower("Keep-Alive")| == 10 && |Lower("Proxy-Authenticate")| == 18;
    assert |Lower("Proxy-Authorization")| == 19 && |Lower("TE")| == 2 && |Lower("Trailers")| == 8;
    assert |Lower("Transfer-Encoding")| == 17 && |Lower("Content-Length")| == 14;
  }

  lemma LastingSnoc(values: seq<string>, v: string)
    ensures Lasting(values + [v]) == Lasting(values) + if v != [] && v[0] == '1' then [] else [v]
  {
    assert (values + [v])[..|values|] == values;
  }

  /** What the cache contributes to a name. */
  function CacheValues(cache: Fields, network: Fields, name: string): seq<string> {
    if !KeptFromCache(name, network) then []
    else if Same(name, "Warning") then Lasting(ValuesOf(cache, name))
    else ValuesOf(cache, name)
  }

  lemma {:induction false} CacheFieldsValues(cache: Fields, network: Fields, name: string)
    ensures ValuesOf(CacheFields(cache, network), name) == CacheValues(cache, network, name)
    decreases |cache|
  {
    if cache != [] {
      var init, f := cache[..|cache| - 1], cache[|cache| - 1];
      assert cache == init + [f];
      CacheFieldsValues(init, network, name);
      CacheStep(init, f, network, name);
    }
  }

  lemma CacheStep(init: Fields, f: Field, network: Fields, name: string)
    requires ValuesOf(CacheFields(init, network), name) == CacheValues(init, network, name)
    ensures ValuesOf(CacheFields(init + [f], network), name) == CacheValues(init + [f], network, name)
  {
    var kept := CacheFields(init, network);
    assert (init + [f])[..|init|] == init;
    HasSnoc(init, f, name);
    HasSnoc(kept, f, name);
    assert CacheFields(init + [f], network) == if FromCache(f, network) then kept + [f] else kept;
    if Same(f.name, name) {
      SameClass(f.name, name, network);
      LastingSnoc(ValuesOf(init, name), f.value);
      assert FromCache(f, network) <==> !Transient(f) && KeptFromCache(name, network);
      assert ValuesOf(init + [f], name) == ValuesOf(init, name) + [f.value];
      assert ValuesOf(kept + [f], name) == ValuesOf(kept, name) + [f.value];
    } else {
      assert ValuesOf(init + [f], name) == ValuesOf(init, name);
      assert ValuesOf(kept + [f], name) == ValuesOf(kept, name);
    }
  }

  lemma {:induction false} NetworkFieldsValues(network: Fields, name: string)
    ensures ValuesOf(NetworkFields(network), name)
         == if !Same(name, "Content-Length") && EndToEnd(name) then ValuesOf(network, name) else []
    decreases |network|
  {
    if network != [] {
      var init, f := network[..|network| - 1], network[|network| - 1];
      assert network == init + [f];
      NetworkFieldsValues(init, name);
      NetworkStep(init, f, name);
    }
  }

  lemma NetworkStep(init: Fields, f: Field, name: string)
    requires ValuesOf(NetworkFields(init), name)
          == if !Same(name, "Content-Length") && EndToEnd(name) then ValuesOf(init, name) else []
    ensures ValuesOf(NetworkFields(init + [f]), name)
         == if !Same(name, "Content-Length") && EndToEnd(name) then ValuesOf(init + [f], name) else []
  {
    var kept := NetworkFields(init);
    assert (init + [f])[..|init|] == init;
    HasSnoc(init, f, name);
    HasSnoc(kept, f, name);
    assert NetworkFields(init + [f]) == if FromNetwork(f) then kept + [f] else kept;
    if Same(f.name, name) {
      SameClass(f.name, name, []);
    }
  }

  // ---- the merge ----

  /** The names of section 13.5.1 of RFC 2616 are hop-by-hop, in any case, and no others. */
  lemma HopByHopNames(name: string)
    ensures !EndToEnd(name) <==>
              Lower(name) in ["connection", "keep-alive", "proxy-authenticate", "proxy-authorization", "te", "trailers",
                              "transfer-encoding", "upgrade"]
  {
    ConnectionNames();
    ProxyNames();
    TransferNames();
  }

  lemma ConnectionNames()
    ensures Lower("Connection") == "connection" && Lower("Keep-Alive") == "keep-alive" && Lower("Upgrade") == "upgrade"
  {
  }

  lemma ProxyNames()
    ensures Lower("Proxy-Authenticate") == "proxy-authenticate"
    ensures Lower("Proxy-Authorization") == "proxy-authorization"
  {
  }

  lemma TransferNames()
    ensures Lower("TE") == "te" && Lower("Trailers") == "trailers" && Lower("Transfer-Encoding") == "transfer-encoding"
  {
  }

  /**
   Every name of the merged list: hop-by-hop names and Content-Length have the cached values only; other names have
   exactly the values of the network response if it has any, and the cached values without 1xx warnings if not.
   */
  lemma MergedValues(cache: Fields, network: Fields, name: string)
    ensures ValuesOf(Merge(cache, network), name) ==
              if Same(name, "Content-Length") || !EndToEnd(name) then ValuesOf(cache, name)
              else if Has(network, name) then ValuesOf(network, name)
              else if Same(name, "Warning") then Lasting(ValuesOf(cache, name))
              else ValuesOf(cache, name)
    ensures Grouped(Merge(cache, network))
  {
    var kept, added := CacheFields(cache, network), NetworkFields(network);
    AddAllValues([], kept, name);
    AddAllValues(AddAll([], kept), added, name);
    CacheFieldsValues(cache, network, name);
    NetworkFieldsValues(network, name);
    HasIffValues(network, name);
    if Same(name, "Warning") {
      WarningIsEndToEnd(name);
    }
  }

  lemma {:induction false} InsertFrom(l: Fields, f: Field, g: Field)
    requires g in Insert(l, f)
    ensures g in l || g == f
  {
    if l != [] {
      if Same(l[0].name, f.name) {
        assert Insert(l, f) == [l[0]] + AfterRun(l[1..], f);
        if g != l[0] {
          AfterRunFrom(l[1..], f, g);
        }
      } else if g != l[0] {
        assert Insert(l, f) == [l[0]] + Insert(l[1..], f);
        InsertFrom(l[1..], f, g);
      }
    }
  }

  lemma {:induction false} AfterRunFrom(l: Fields, f: Field, g: Field)
    requires g in AfterRun(l, f)
    ensures g in l || g == f
  {
    if l != [] && Same(l[0].name, f.name) && g != l[0] {
      AfterRunFrom(l[1..], f, g);
    }
  }

  lemma {:induction false} AddAllFrom(fs: Fields, g: Field)
    requires g in AddAll([], fs)
    ensures g in fs
    decreases |fs|
  {
    if fs != [] {
      var init, f := fs[..|fs| - 1], fs[|fs| - 1];
      assert fs == init + [f];
      InsertFrom(AddAll([], init), f, g);
      if g != f {
        AddAllFrom(init, g);
      }
    }
  }

  lemma {:induction false} CacheFieldsFrom(cache: Fields, network: Fields, g: Field)
    requires g in CacheFields(cache, network)
    ensures FromCache(g, network)
    decreases |cache|
  {
    if g in CacheFields(cache[..|cache| - 1], network) {
      CacheFieldsFrom(cache[..|cache| - 1], network, g);
    }
  }

  lemma {:induction false} NetworkFieldsFrom(network: Fields, g: Field)
    requires g in NetworkFields(network)
    ensures FromNetwork(g) && g in network
    decreases |network|
  {
    if g in NetworkFields(network[..|network| - 1]) {
      NetworkFieldsFrom(network[..|network| - 1], g);
    }
  }

  lemma {:induction false} InHas(l: Fields, g: Field)
    requires g in l
    ensures Has(l, g.name)
  {
    if g != l[0] {
      InHas(l[1..], g);
    }
  }

  lemma {:induction false} CacheFieldsAppend(a: Fields, b: Fields, network: Fields)
    requires forall f | f in a :: FromCache(f, network)
    requires forall f | f in b :: !FromCache(f, network)
    ensures CacheFields(a + b, network) == a
    decreases |a| + |b|
  {
    if b != [] {
      var init := b[..|b| - 1];
      assert (a + b)[..|a + b| - 1] == a + init && (a + b)[|a + b| - 1] == b[|b| - 1];
      CacheFieldsAppend(a, init, network);
    } else if a != [] {
      var init := a[..|a| - 1];
      assert a + b == a && init + [] == init && init + [a[|a| - 1]] == a;
      CacheFieldsAppend(init, [], network);
    }
  }

  /** The merged list is what the cache gives, then what the network gives, with no name in both. */
  lemma MergeApart(cache: Fields, network: Fields)
    ensures var a, b := AddAll([], CacheFields(cache, network)), AddAll([], NetworkFields(network));
            && Merge(cache, network) == a + b
            && (forall f | f in a :: FromCache(f, network))
            && (forall f | f in b :: !FromCache(f, network))
  {
    var kept, added := CacheFields(cache, network), NetworkFields(network);
    var a, b := AddAll([], kept), AddAll([], added);
    forall f | f in added ensures !Has(a, f.name) && !FromCache(f, network) {
      NetworkFieldsFrom(network, f);
      InHas(network, f);
      CacheFieldsValues(cache, network, f.name);
      HasIffValues(kept, f.name);
      AddAllValues([], kept, f.name);
    }
    AddAllApart(a, added);
    forall f | f in a ensures FromCache(f, network) {
      AddAllFrom(kept, f);
      CacheFieldsFrom(cache, network, f);
    }
    forall f | f in b ensures !FromCache(f, network) {
      AddAllFrom(added, f);
    }
  }

  /** Merging the result again with the same network response changes nothing, not even the order. */
  lemma MergeTwice(cache: Fields, network: Fields)
    ensures Merge(Merge(cache, network), network) == Merge(cache, network)
  {
    var a, b := AddAll([], CacheFields(cache, network)), AddAll([], NetworkFields(network));
    MergeApart(cache, network);
    CacheFieldsAppend(a, b, network);
    AddAllValues([], CacheFields(cache, network), "");
    AddAllRebuilds(a);
  }
}
