/** The peers file: what saving the address manager writes and what loading it
    rebuilds.  Reference counts, tried flags and counters are not stored; they
    are derived again from the bucket contents. */
module AddrFile {
  import opened AddrBook
  import opened Options

  const SERIALISATION_VERSION := 1

  datatype SavedAddress = SavedAddress(addr: Key, src: Key, attempts: int, timeStamp: int, lastAttempt: int, lastSuccess: int)

  datatype Saved = Saved(version: int, hashes: Hashes, addresses: seq<SavedAddress>,
                         newBuckets: seq<seq<Key>>, triedBuckets: seq<seq<Key>>)

  /** `list` names each element of `s` once. */
  ghost predicate Lists<T(!new)>(list: seq<T>, s: set<T>) {
    && (forall x :: x in list <==> x in s)
    && (forall i, j | 0 <= i < j < |list| :: list[i] != list[j])
  }

  ghost function SavedEntry(k: Key, e: Entry): SavedAddress {
    SavedAddress(k, e.src.key, e.attempts, e.na.timestamp, e.lastAttempt, e.lastSuccess)
  }

  ghost function SavedEntries(index: map<Key, Entry>, keys: set<Key>): set<SavedAddress>
    requires keys <= index.Keys
  {
    set k | k in keys :: SavedEntry(k, index[k])
  }

  /** `saved` is what saving `b` may write: the order within maps is free. */
  ghost predicate Saves(b: Book, h: Hashes, saved: Saved) {
    && saved.version == SERIALISATION_VERSION && saved.hashes == h
    && Lists(saved.addresses, SavedEntries(b.index, b.index.Keys))
    && |saved.newBuckets| == |b.news|
    && (forall i | 0 <= i < |b.news| :: Lists(saved.newBuckets[i], b.news[i]))
    && saved.triedBuckets == b.tried
  }

  /** What a saved file holds: one record for every address and no other, with its source, time
      stamp, attempts and times; the keys of every bucket once each; and the tried lists in order. */
  lemma FileHolds(b: Book, h: Hashes, saved: Saved)
    requires Saves(b, h, saved)
    ensures forall k | k in b.index ::
              SavedAddress(k, b.index[k].src.key, b.index[k].attempts, b.index[k].na.timestamp, b.index[k].lastAttempt, b.index[k].lastSuccess)
              in saved.addresses
    ensures forall a | a in saved.addresses :: a.addr in b.index
    ensures forall i, j | 0 <= i < j < |saved.addresses| :: saved.addresses[i].addr != saved.addresses[j].addr
    ensures |saved.newBuckets| == |b.news| && forall i, k | 0 <= i < |b.news| :: k in saved.newBuckets[i] <==> k in b.news[i]
    ensures saved.triedBuckets == b.tried
  {
    forall k | k in b.index
      ensures SavedAddress(k, b.index[k].src.key, b.index[k].attempts, b.index[k].na.timestamp, b.index[k].lastAttempt, b.index[k].lastSuccess)
              in saved.addresses
    {
      assert SavedEntry(k, b.index[k]) in SavedEntries(b.index, b.index.Keys);
    }
    forall a | a in saved.addresses ensures a.addr in b.index && a == SavedEntry(a.addr, b.index[a.addr]) {
      assert a in SavedEntries(b.index, b.index.Keys);
    }
  }

  /** Parsing an "ip:port" string; a parsed address is of the present and has default services. */
  type Parser = Key -> Option<NetAddress>

  /** The addresses of `b` parse back to addresses with the same key. */
  ghost predicate Parses(parse: Parser, b: Book) {
    forall k | k in b.index ::
      && parse(k).Some? && parse(k).value.key == k
      && parse(b.index[k].src.key).Some? && parse(b.index[k].src.key).value.key == b.index[k].src.key
  }

  /** The tried addresses. */
  ghost predicate InLists(tried: seq<seq<Key>>, k: Key) {
    exists c :: 0 <= c < |tried| && k in tried[c]
  }

  ghost function Held(base: map<Key, Entry>, news: seq<set<Key>>): set<Key> {
    set k | k in base && |Holders(news, k)| != 0
  }

  ghost function Listed(base: map<Key, Entry>, tried: seq<seq<Key>>): set<Key> {
    set k | k in base && InLists(tried, k)
  }

  /** The book derived from bare entries and bucket contents. */
  ghost function Derived(base: map<Key, Entry>, news: seq<set<Key>>, tried: seq<seq<Key>>): Book {
    Book(map k | k in base :: base[k].(refs := |Holders(news, k)|, tried := InLists(tried, k)), news, tried,
         |Held(base, news)|, |Listed(base, tried)|)
  }

  ghost predicate SameEntry(e: Entry, e': Entry) {
    && e'.na.key == e.na.key && e'.src.key == e.src.key && e'.refs == e.refs && e'.tried == e.tried
    && e'.attempts == e.attempts && e'.lastAttempt == e.lastAttempt && e'.lastSuccess == e.lastSuccess
  }

  /** `b'` is `b` up to the time stamps and services of its addresses. */
  ghost predicate SameBook(b: Book, b': Book) {
    && b'.news == b.news && b'.tried == b.tried && b'.nNew == b.nNew && b'.nTried == b.nTried
    && b'.index.Keys == b.index.Keys
    && forall k | k in b.index :: SameEntry(b.index[k], b'.index[k])
  }

  /** Entries as read from the file, before any bucket is read. */
  ghost predicate BaseOf(b: Book, base: map<Key, Entry>) {
    && base.Keys == b.index.Keys
    && forall k | k in b.index :: SameEntry(b.index[k].(refs := 0, tried := false), base[k])
  }

  lemma DerivedEntries(b: Book, h: Hashes, base: map<Key, Entry>, k: Key)
    requires b.Inv(h) && BaseOf(b, base) && k in b.index
    ensures SameEntry(b.index[k], Derived(base, b.news, b.tried).index[k]) && b.index[k].na.key == k
    ensures b.index[k].tried <==> |Holders(b.news, k)| == 0
  {
    hide Holders;
    IndexKey(b, h, k);
    TriedXorNew(b, h, k);
    TriedIffListed(b, h, k);
  }

  /** What loading derives is what was saved. */
  lemma DerivedIsSame(b: Book, h: Hashes, base: map<Key, Entry>)
    requires b.Inv(h) && BaseOf(b, base)
    ensures SameBook(b, Derived(base, b.news, b.tried))
  {
    hide Holders, BucketsOf, ListsOf, RefsOf, SameEntry;
    forall k | k in b.index
      ensures SameEntry(b.index[k], Derived(base, b.news, b.tried).index[k])
      ensures b.index[k].tried == InLists(b.tried, k) && (b.index[k].tried <==> |Holders(b.news, k)| == 0)
    {
      DerivedEntries(b, h, base, k);
      TriedIffListed(b, h, k);
    }
    assert b.NewKeys() == Held(base, b.news);
    assert b.TriedKeys() == Listed(base, b.tried);
  }

  lemma SameBookInv(b: Book, h: Hashes, b': Book)
    requires b.Inv(h) && SameBook(b, b')
    ensures b'.Inv(h)
  {
    hide ListsOf, BucketsOf;
    assert b'.NewKeys() == b.NewKeys() && b'.TriedKeys() == b.TriedKeys();
    MakeInv(b', h, {}, b.NewKeys(), b.TriedKeys());
  }

  lemma TriedIffListed(b: Book, h: Hashes, k: Key)
    requires b.Inv(h) && k in b.index
    ensures b.index[k].tried == InLists(b.tried, k)
  {
    if b.index[k].tried { assert k in b.TriedKeys(); }
    if InLists(b.tried, k) {
      var c :| 0 <= c < |b.tried| && k in b.tried[c];
      assert k in b.TriedKeys();
    }
  }

  /** Reading one entry of a new bucket. */
  lemma DeriveNew(base: map<Key, Entry>, news: seq<set<Key>>, tried: seq<seq<Key>>, i: nat, k: Key)
    requires i < |news| && k in base && k !in news[i]
    ensures var b := Derived(base, news, tried);
            var b1 := if b.index[k].refs == 0 then b.(nNew := b.nNew + 1) else b;
            Derived(base, news[i := news[i] + {k}], tried) == b1.Place(i, k)
  {
    hide Holders, InLists, Held, Listed;
    var news', b := news[i := news[i] + {k}], Derived(base, news, tried);
    HeldGrows(base, news, i, k);
    assert Derived(base, news', tried).index == b.Place(i, k).index;
  }

  lemma HeldGrows(base: map<Key, Entry>, news: seq<set<Key>>, i: nat, k: Key)
    requires i < |news| && k in base && k !in news[i]
    ensures var news' := news[i := news[i] + {k}];
            && (forall k' | k' in base :: |Holders(news', k')| == |Holders(news, k')| + if k' == k then 1 else 0)
            && |Held(base, news')| == |Held(base, news)| + if |Holders(news, k)| == 0 then 1 else 0
  {
    hide Holders;
    var news' := news[i := news[i] + {k}];
    forall k' | k' in base
      ensures |Holders(news', k')| == |Holders(news, k')| + if k' == k then 1 else 0
    {
      HolderCount(news, i, news[i] + {k}, k');
    }
    assert Held(base, news') == Held(base, news) + {k};
    if |Holders(news, k)| != 0 { assert Held(base, news') == Held(base, news); }
  }

  /** Reading one entry of a tried list. */
  lemma DeriveTried(base: map<Key, Entry>, news: seq<set<Key>>, tried: seq<seq<Key>>, c: nat, k: Key)
    requires c < |tried| && k in base && !InLists(tried, k)
    ensures Derived(base, news, tried[c := tried[c] + [k]]) == Derived(base, news, tried).Push(k, c)
  {
    hide Holders, InLists, Held, Listed;
    var tried' := tried[c := tried[c] + [k]];
    ListedGrows(base, tried, c, k);
    assert Derived(base, news, tried').index == Derived(base, news, tried).Push(k, c).index;
  }

  lemma ListedGrows(base: map<Key, Entry>, tried: seq<seq<Key>>, c: nat, k: Key)
    requires c < |tried| && k in base && !InLists(tried, k)
    ensures var tried' := tried[c := tried[c] + [k]];
            && (forall k' | k' in base :: InLists(tried', k') <==> InLists(tried, k') || k' == k)
            && |Listed(base, tried')| == |Listed(base, tried)| + 1
  {
    var tried' := tried[c := tried[c] + [k]];
    forall k' | k' in base ensures InLists(tried', k') <==> InLists(tried, k') || k' == k {
      if k' == k { assert k in tried'[c]; }
      if InLists(tried, k') {
        var d :| 0 <= d < |tried| && k' in tried[d];
        assert k' in tried'[d];
      }
    }
    assert Listed(base, tried') == Listed(base, tried) + {k};
  }

  lemma ListsOneMore<T(!new)>(list: seq<T>, s: set<T>, x: T)
    requires Lists(list, s) && x !in s
    ensures Lists(list + [x], s + {x})
  {
  }

  lemma SaveOne(list: seq<SavedAddress>, index: map<Key, Entry>, keys: set<Key>, k: Key)
    requires keys <= index.Keys && k in index && k !in keys && Lists(list, SavedEntries(index, keys))
    ensures Lists(list + [SavedEntry(k, index[k])], SavedEntries(index, keys + {k}))
  {
    assert SavedEntries(index, keys + {k}) == SavedEntries(index, keys) + {SavedEntry(k, index[k])};
    ListsOneMore(list, SavedEntries(index, keys), SavedEntry(k, index[k]));
  }

  lemma ListsNothing<T(!new)>()
    ensures Lists<T>([], {})
  {
  }

  lemma SaveNone(index: map<Key, Entry>)
    ensures Lists([], SavedEntries(index, {}))
  {
  }

  lemma SavedAt(b: Book, h: Hashes, saved: Saved, j: nat)
    requires Saves(b, h, saved) && j < |saved.addresses|
    ensures var v := saved.addresses[j]; v.addr in b.index && v == SavedEntry(v.addr, b.index[v.addr])
  {
    assert saved.addresses[j] in saved.addresses;
  }

  /** What reading one address line yields. */
  lemma ParsedAt(b: Book, saved: Saved, parse: Parser, j: nat)
    requires Saves(b, saved.hashes, saved) && Parses(parse, b) && j < |saved.addresses|
    ensures var v := saved.addresses[j];
            && v.addr in b.index && parse(v.addr).Some? && parse(v.src).Some? && parse(v.addr).value.key == v.addr
            && (b.index[v.addr].na.key == v.addr ==>
                  SameEntry(b.index[v.addr].(refs := 0, tried := false),
                            Entry(parse(v.addr).value, parse(v.src).value, v.attempts, v.lastAttempt, v.lastSuccess, false, 0)))
  {
    SavedAt(b, saved.hashes, saved, j);
  }

  lemma SavedAll(b: Book, h: Hashes, saved: Saved, k: Key)
    requires Saves(b, h, saved) && k in b.index
    ensures exists j :: 0 <= j < |saved.addresses| && saved.addresses[j].addr == k
  {
    var v := SavedEntry(k, b.index[k]);
    assert v in SavedEntries(b.index, b.index.Keys);
    assert v in saved.addresses;
    var j :| 0 <= j < |saved.addresses| && saved.addresses[j] == v;
    assert saved.addresses[j].addr == k;
  }

  /** The first `n` buckets, and nothing in the others. */
  ghost function First<T>(buckets: seq<T>, n: nat, empty: T): (r: seq<T>)
    requires n <= |buckets|
    ensures |r| == |buckets|
  {
    buckets[..n] + seq(|buckets| - n, _ => empty)
  }

  lemma FirstNext<T>(buckets: seq<T>, n: nat, empty: T)
    requires n < |buckets|
    ensures First(buckets, n, empty)[n] == empty
    ensures First(buckets, n + 1, empty) == First(buckets, n, empty)[n := buckets[n]]
  {
  }

  lemma DerivedNothing(base: map<Key, Entry>, news: seq<set<Key>>, tried: seq<seq<Key>>)
    requires forall i | 0 <= i < |news| :: news[i] == {}
    requires forall i | 0 <= i < |tried| :: tried[i] == []
    requires forall k | k in base :: base[k].refs == 0 && !base[k].tried
    ensures Derived(base, news, tried) == Book(base, news, tried, 0, 0)
  {
    forall k | k in base ensures Holders(news, k) == {} && !InLists(tried, k) {}
    assert Held(base, news) == {} && Listed(base, tried) == {};
    assert Derived(base, news, tried).index == base;
  }

  ghost function Elems(list: seq<Key>): set<Key> {
    set k | k in list
  }

  /** Two managers are the same book if they derive from the same contents. */
  lemma LoadedIsSaved(b: Book, h: Hashes, saved: Saved, base: map<Key, Entry>)
    requires b.Inv(h) && Saves(b, h, saved) && BaseOf(b, base)
    ensures SameBook(b, Derived(base, b.news, b.tried)) && Derived(base, b.news, b.tried).Inv(h)
  {
    DerivedIsSame(b, h, base);
    SameBookInv(b, h, Derived(base, b.news, b.tried));
  }

  lemma DerivedKeys(base: map<Key, Entry>, news: seq<set<Key>>, tried: seq<seq<Key>>)
    ensures var b := Derived(base, news, tried); b.index.Keys == base.Keys && b.news == news && b.tried == tried
  {
  }

  lemma FreshUnlisted(b: Book, k: Key)
    requires Fresh(b)
    ensures b.Unlisted(k)
  {
  }

  lemma FirstAll<T>(buckets: seq<T>, empty: T)
    ensures First(buckets, |buckets|, empty) == buckets
  {
  }

  /** The saved bucket lists name the new buckets of `b`, whose keys are all known. */
  ghost predicate NewListed(saved: Saved, b: Book, base: map<Key, Entry>)
    requires |saved.newBuckets| == |b.news|
  {
    forall i | 0 <= i < |b.news| :: Lists(saved.newBuckets[i], b.news[i]) && b.news[i] <= base.Keys
  }

  /** `list` may be read into the empty list `c`: its keys are known, distinct and in no other list. */
  ghost predicate Appendable(base: map<Key, Entry>, tried: seq<seq<Key>>, c: nat, list: seq<Key>) {
    && c < |tried| && tried[c] == []
    && (forall i | 0 <= i < |list| :: list[i] in base && !InLists(tried, list[i]))
    && (forall i, j | 0 <= i < j < |list| :: list[i] != list[j])
  }

  lemma NotYetListed(base: map<Key, Entry>, tried: seq<seq<Key>>, c: nat, list: seq<Key>, j: nat)
    requires Appendable(base, tried, c, list) && j < |list|
    ensures list[j] in base && !InLists(tried[c := list[..j]], list[j])
  {
    var tried' := tried[c := list[..j]];
    forall d | 0 <= d < |tried'| ensures list[j] !in tried'[d] {
      if d != c && list[j] in tried[d] { assert InLists(tried, list[j]); }
    }
  }

  lemma FirstAppendable(b: Book, base: map<Key, Entry>, h: Hashes, c: nat)
    requires ListsOf(b.tried, b.TriedKeys(), h) && b.TriedKeys() <= base.Keys && c < |b.tried|
    ensures Appendable(base, First(b.tried, c, []), c, b.tried[c])
  {
    var tried := First(b.tried, c, []);
    forall i | 0 <= i < |b.tried[c]| ensures b.tried[c][i] in base && !InLists(tried, b.tried[c][i]) {
      var k := b.tried[c][i];
      if InLists(tried, k) { assert false; }
    }
  }

  /** What the final check of a load accepts. */
  ghost predicate SaneEntry(e: Entry) {
    (e.refs != 0 || e.tried) && (e.refs <= 0 || !e.tried)
  }

  ghost predicate SaneBook(b: Book) {
    forall k | k in b.index :: SaneEntry(b.index[k])
  }

  lemma LoadedIsSane(b: Book, h: Hashes, b': Book)
    requires b.Inv(h) && SameBook(b, b')
    ensures SaneBook(b')
  {
    forall k | k in b'.index ensures SaneEntry(b'.index[k]) {
      TriedXorNew(b, h, k);
      assert SameEntry(b.index[k], b'.index[k]);
    }
  }

  lemma SavedShape(b: Book, saved: Saved)
    requires Saves(b, saved.hashes, saved)
    ensures saved.version == SERIALISATION_VERSION && |saved.newBuckets| == |b.news| && saved.triedBuckets == b.tried
  {
  }

  lemma StartDerived(b: Book, saved: Saved, base: map<Key, Entry>, b0: Book)
    requires b.Inv(saved.hashes) && Saves(b, saved.hashes, saved) && BaseOf(b, base) && Fresh(b0)
    requires forall k | k in base :: base[k].refs == 0 && !base[k].tried
    ensures |saved.newBuckets| == |b.news| && saved.triedBuckets == b.tried
    ensures b0.(index := base) == Derived(base, First(b.news, 0, {}), b0.tried)
    ensures b0.tried == First(b.tried, 0, []) && NewListed(saved, b, base)
    ensures ListsOf(b.tried, b.TriedKeys(), saved.hashes) && b.TriedKeys() <= base.Keys
  {
    assert b0.news == First(b.news, 0, {});
    assert b0.tried == First(b.tried, 0, []);
    DerivedNothing(base, b0.news, b0.tried);
  }
}
