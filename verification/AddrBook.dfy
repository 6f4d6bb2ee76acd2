/** The address manager's contents as a value: an index of entries, the "new"
    buckets, the "tried" lists and the two redundant counters.  The invariant of
    every run and what each operation does to it are stated here; module
    AddrManager performs the same operations in place on shared objects. */
module AddrBook {
  import opened Options

  const MINUTE := 60
  const DAY := 86400
  const NUM_MISSING_DAYS := 30
  const NUM_RETRIES := 3
  const MAX_FAILURES := 10
  const MIN_BAD_DAYS := 7

  /** The "ip:port" string that `NetAddressKey` derives from an address. */
  datatype Key = Key(hostPort: string)

  const NEW_BUCKET_COUNT := 1024
  const NEW_BUCKET_SIZE := 64
  const NEW_BUCKETS_PER_ADDRESS := 8
  const TRIED_BUCKET_COUNT := 64
  const TRIED_BUCKET_SIZE := 256

  /** `services` are the numbers of the service bits that are set. */
  datatype NetAddress = NetAddress(key: Key, timestamp: int, services: set<nat>)

  datatype Entry = Entry(na: NetAddress, src: NetAddress, attempts: int,
                         lastAttempt: int, lastSuccess: int, tried: bool, refs: int)

  /** Stand-ins for the keyed double-SHA256 bucket hashes. */
  datatype Hashes = Hashes(newHash: (Key, Key) -> nat, triedHash: Key -> nat) {
    function NewBucket(na: NetAddress, src: NetAddress): nat {
      newHash(na.key, src.key) % NEW_BUCKET_COUNT
    }

    function TriedBucket(k: Key): nat {
      triedHash(k) % TRIED_BUCKET_COUNT
    }
  }

  /** The numbers of the new buckets that hold `k`. */
  ghost function Holders(news: seq<set<Key>>, k: Key): set<nat> {
    set i: nat | i < |news| && k in news[i]
  }

  /** The new buckets hold untried addresses only, at most one over their nominal size. */
  ghost predicate BucketsOf(news: seq<set<Key>>, newKeys: set<Key>) {
    && |news| == NEW_BUCKET_COUNT
    && (forall i | 0 <= i < |news| :: news[i] <= newKeys && |news[i]| <= NEW_BUCKET_SIZE + 1)
  }

  /** The tried lists hold each tried address once, in the one list its key hashes to. */
  ghost predicate ListsOf(tried: seq<seq<Key>>, triedKeys: set<Key>, h: Hashes) {
    && |tried| == TRIED_BUCKET_COUNT
    && (forall b | 0 <= b < |tried| :: |tried[b]| <= TRIED_BUCKET_SIZE)
    && (forall b, i | 0 <= b < |tried| && 0 <= i < |tried[b]| ::
          tried[b][i] in triedKeys && b == h.TriedBucket(tried[b][i]))
    && (forall b, i, j | 0 <= b < |tried| && 0 <= i < j < |tried[b]| :: tried[b][i] != tried[b][j])
    && (forall k | k in triedKeys :: k in tried[h.TriedBucket(k)])
  }

  /** `refs` counts the new buckets holding an address: none for a tried one,
      one to eight otherwise (a `pending` address is still on its way in). */
  ghost predicate RefsOf(index: map<Key, Entry>, news: seq<set<Key>>, pending: set<Key>) {
    forall k | k in index ::
      && index[k].na.key == k
      && index[k].refs == |Holders(news, k)| <= NEW_BUCKETS_PER_ADDRESS
      && (!index[k].tried && k !in pending ==> 1 <= index[k].refs)
  }

  datatype Book = Book(index: map<Key, Entry>, news: seq<set<Key>>, tried: seq<seq<Key>>, nNew: int, nTried: int) {
    ghost function NewKeys(): set<Key> {
      set k | k in index && !index[k].tried
    }

    ghost function TriedKeys(): set<Key> {
      set k | k in index && index[k].tried
    }

    ghost predicate Shaped() {
      |news| == NEW_BUCKET_COUNT && |tried| == TRIED_BUCKET_COUNT
    }

    ghost predicate Inv(h: Hashes, pending: set<Key> := {}) {
      && BucketsOf(news, NewKeys())
      && ListsOf(tried, TriedKeys(), h)
      && RefsOf(index, news, pending)
      && nNew == |NewKeys()|
      && nTried == |TriedKeys()|
    }

    /** No bucket and no tried list mentions `k`. */
    ghost predicate Unlisted(k: Key) {
      && (forall c | 0 <= c < |tried| :: k !in tried[c])
      && (forall j | 0 <= j < |news| :: k !in news[j])
    }

    /** Takes `k` out of bucket `i`. */
    ghost function Unlink(i: nat, k: Key): Book
      requires i < |news| && k in index
    {
      this.(index := index[k := index[k].(refs := index[k].refs - 1)], news := news[i := news[i] - {k}])
    }

    /** Takes `k` out of the index. */
    ghost function Forget(k: Key): Book {
      this.(index := index - {k}, nNew := nNew - 1)
    }

    /** The keys of `gone` with a single reference left. */
    ghost function Last(gone: set<Key>): set<Key>
      requires gone <= index.Keys
    {
      set k | k in gone && index[k].refs == 1
    }

    /** Takes every key of `gone` out of bucket `i`; a key no bucket holds any more is forgotten. */
    ghost function Drop(i: nat, gone: set<Key>): Book
      requires i < |news| && gone <= news[i] <= index.Keys
    {
      var forgotten := Last(gone);
      Book(map k | k in index && k !in forgotten :: if k in gone then index[k].(refs := index[k].refs - 1) else index[k],
           news[i := news[i] - gone], tried, nNew - |forgotten|, nTried)
    }

    /** Puts a known address into bucket `i`. */
    ghost function Place(i: nat, k: Key): Book
      requires i < |news| && k in index
    {
      this.(index := index[k := index[k].(refs := index[k].refs + 1)], news := news[i := news[i] + {k}])
    }

    /** Takes `k` out of the first `n` new buckets. */
    ghost function Withdraw(k: Key, n: nat): Book
      requires k in index && n <= |news|
    {
      this.(index := index[k := index[k].(refs := index[k].refs - |Holders(news[..n], k)|)],
            news := Without(news[..n], k) + news[n..])
    }

    /** Appends a withdrawn address to a tried list. */
    ghost function Push(k: Key, b: nat): Book
      requires k in index && b < |tried|
    {
      this.(index := index[k := index[k].(tried := true)], tried := tried[b := tried[b] + [k]], nTried := nTried + 1)
    }

    /** Puts a withdrawn address at position `p` of a tried list; the address
        that was there is untried again and in no bucket yet. */
    ghost function Swap(k: Key, b: nat, p: nat): Book
      requires k in index && b < |tried| && p < |tried[b]| && tried[b][p] in index
    {
      var out := tried[b][p];
      this.(index := index[k := index[k].(tried := true)][out := index[out].(tried := false)],
            tried := tried[b := tried[b][p := k]], nNew := nNew + 1)
    }

    /** Takes `k` out of all new buckets and out of the count of new addresses. */
    ghost function Leave(k: Key): Book
      requires k in index
    {
      Withdraw(k, |news|).(nNew := nNew - 1)
    }

    /** Moves `k` from the new buckets to the end of its tried list. */
    ghost function Promote(k: Key, b: nat): Book
      requires k in index && b < |tried|
    {
      Leave(k).Push(k, b)
    }

    /** Moves `k` from the new buckets to position `p` of its tried list. */
    ghost function Exchange(k: Key, b: nat, p: nat): Book
      requires k in index && b < |tried| && p < |tried[b]| && tried[b][p] in index
    {
      Leave(k).Swap(k, b, p)
    }

    /** Replaces the entry of a known address. */
    ghost function Touch(k: Key, e: Entry): Book {
      this.(index := index[k := e])
    }

    /** Indexes a first-seen address that no bucket holds yet. */
    ghost function Admit(na: NetAddress, src: NetAddress): Book {
      this.(index := index[na.key := Entry(na, src, 0, ZERO_TIME, ZERO_TIME, false, 0)], nNew := nNew + 1)
    }
  }

  /** The new buckets with `k` removed from each of them. */
  ghost function Without(news: seq<set<Key>>, k: Key): (r: seq<set<Key>>)
    ensures |r| == |news| && forall i | 0 <= i < |news| :: r[i] == news[i] - {k}
  {
    seq(|news|, i requires 0 <= i < |news| => news[i] - {k})
  }

  /** `time.Time{}` in Unix seconds. */
  const ZERO_TIME := -62135596800

  /** Not tried in the last minute, and from the future, a month old, or failing. */
  predicate IsBad(e: Entry, now: int) {
    && e.lastAttempt <= now - MINUTE
    && (|| e.na.timestamp > now + 10 * MINUTE
        || e.na.timestamp < now - NUM_MISSING_DAYS * DAY
        || (e.lastSuccess == ZERO_TIME && e.attempts >= NUM_RETRIES)
        || (e.lastSuccess <= now - MIN_BAD_DAYS * DAY && e.attempts >= MAX_FAILURES))
  }

  /** `gone` is the bad entries of bucket `i` and, if there are others, an oldest one of those. */
  ghost predicate Expires(b: Book, i: nat, gone: set<Key>, now: int)
    requires i < |b.news| && gone <= b.news[i] <= b.index.Keys
  {
    var bad := set k | k in b.news[i] && IsBad(b.index[k], now);
    if bad == b.news[i] then gone == bad
    else exists oldest | oldest in b.news[i] - bad ::
           && gone == bad + {oldest}
           && forall k | k in b.news[i] - bad :: b.index[oldest].na.timestamp <= b.index[k].na.timestamp
  }

  /** Replacing one bucket moves the count of `k` by its membership in that bucket alone. */
  lemma HolderCount(news: seq<set<Key>>, i: nat, s: set<Key>, k: Key)
    requires i < |news|
    ensures |Holders(news[i := s], k)| + (if k in news[i] then 1 else 0) == |Holders(news, k)| + if k in s then 1 else 0
  {
    var rest := Holders(news, k) - {i};
    assert Holders(news, k) == rest + if k in news[i] then {i} else {};
    assert Holders(news[i := s], k) == rest + if k in s then {i} else {};
  }

  /** A key with a single reference is in no second bucket. */
  lemma OneHolder(news: seq<set<Key>>, i: nat, j: nat, k: Key)
    requires i < |news| && j < |news| && k in news[i] && k in news[j] && |Holders(news, k)| == 1
    ensures i == j
  {
    assert i in Holders(news, k);
    assert |Holders(news, k) - {i}| == 0;
    assert j !in Holders(news, k) - {i};
  }

  lemma LastHolder(b: Book, i: nat, j: nat, k: Key, pending: set<Key>)
    requires RefsOf(b.index, b.news, pending) && k in b.index && b.index[k].refs == 1
    requires i < |b.news| && j < |b.news| && k in b.news[i] && k in b.news[j]
    ensures i == j
  {
    OneHolder(b.news, i, j, k);
  }

  /** Dropping one key is unlinking it and forgetting it with its last reference,
      after which nothing mentions it. */
  lemma DropOne(b: Book, h: Hashes, i: nat, k: Key, pending: set<Key>)
    requires b.Inv(h, pending) && i < |b.news| && k in b.news[i]
    ensures b.news[i] <= b.index.Keys
    ensures b.Drop(i, {k}) == if b.index[k].refs == 1 then b.Unlink(i, k).Forget(k) else b.Unlink(i, k)
    ensures b.index[k].refs == 1 ==> b.Unlink(i, k).Unlisted(k)
  {
    hide RefsOf;
    assert k in b.NewKeys() && k !in b.TriedKeys();
    forall j | 0 <= j < |b.news| && j != i && b.index[k].refs == 1
      ensures k !in b.news[j]
    {
      if k in b.news[j] { LastHolder(b, i, j, k, pending); }
    }
    assert b.Last({k}) == if b.index[k].refs == 1 then {k} else {};
    assert b.Drop(i, {k}).index == if b.index[k].refs == 1 then b.Unlink(i, k).Forget(k).index else b.Unlink(i, k).index;
  }

  lemma DropRefs(b: Book, i: nat, gone: set<Key>, pending: set<Key>)
    requires RefsOf(b.index, b.news, pending) && i < |b.news| && gone <= b.news[i] <= b.index.Keys && gone !! pending
    ensures RefsOf(b.Drop(i, gone).index, b.news[i := b.news[i] - gone], pending)
  {
    var b' := b.Drop(i, gone);
    forall k | k in b'.index
      ensures b'.index[k].refs == |Holders(b'.news, k)|
    {
      HolderCount(b.news, i, b.news[i] - gone, k);
    }
  }

  lemma DropKeepsInv(b: Book, h: Hashes, i: nat, gone: set<Key>, pending: set<Key>)
    requires b.Inv(h, pending) && i < |b.news| && gone <= b.news[i] && gone !! pending
    ensures b.Drop(i, gone).Inv(h, pending)
  {
    hide ListsOf, RefsOf;
    var b', forgotten := b.Drop(i, gone), b.Last(gone);
    DropRefs(b, i, gone, pending);
    assert b'.NewKeys() == b.NewKeys() - forgotten;
    assert b'.TriedKeys() == b.TriedKeys();
    forall j, k | 0 <= j < |b'.news| && k in b'.news[j]
      ensures k in b'.NewKeys()
    {
      if k in forgotten { LastHolder(b, i, j, k, pending); }
    }
    MakeInv(b', h, pending, b.NewKeys() - forgotten, b.TriedKeys());
  }

  lemma DropNothing(b: Book, i: nat)
    requires i < |b.news| && b.news[i] <= b.index.Keys
    ensures b.Drop(i, {}) == b
  {
    assert b.Drop(i, {}).index == b.index;
    assert b.Last({}) == {};
    assert b.news[i] - {} == b.news[i];
  }

  lemma DropSpares(b: Book, i: nat, gone: set<Key>, k: Key)
    requires i < |b.news| && gone <= b.news[i] <= b.index.Keys && k in b.news[i] - gone
    ensures k in b.Drop(i, gone).index && b.Drop(i, gone).index[k] == b.index[k]
    ensures |b.Drop(i, gone).news| == |b.news| && k in b.Drop(i, gone).news[i]
  {
  }

  /** Of the entries seen so far, `gone` are the bad ones and `oldest` is an oldest of the rest. */
  ghost predicate Scanned(b: Book, seen: set<Key>, gone: set<Key>, oldest: Option<Key>, now: int)
    requires seen <= b.index.Keys
  {
    && (forall k :: k in gone <==> k in seen && IsBad(b.index[k], now))
    && match oldest
       case None => seen == gone
       case Some(o) => o in seen - gone && forall k | k in seen - gone :: b.index[o].na.timestamp <= b.index[k].na.timestamp
  }

  lemma ScanOne(b: Book, seen: set<Key>, gone: set<Key>, oldest: Option<Key>, now: int, k: Key)
    requires seen <= b.index.Keys && k in b.index && Scanned(b, seen, gone, oldest, now)
    ensures IsBad(b.index[k], now) ==> Scanned(b, seen + {k}, gone + {k}, oldest, now)
    ensures !IsBad(b.index[k], now) && (oldest.Some? ==> b.index[oldest.value].na.timestamp < b.index[k].na.timestamp) ==>
              Scanned(b, seen + {k}, gone, if oldest.None? then Some(k) else oldest, now)
    ensures !IsBad(b.index[k], now) && (oldest.Some? ==> b.index[k].na.timestamp <= b.index[oldest.value].na.timestamp) ==>
              Scanned(b, seen + {k}, gone, Some(k), now)
  {
    assert (seen + {k}) - (gone + {k}) <= seen - gone;
  }

  lemma ScanAll(b: Book, i: nat, gone: set<Key>, oldest: Option<Key>, now: int)
    requires i < |b.news| && b.news[i] <= b.index.Keys && Scanned(b, b.news[i], gone, oldest, now)
    ensures gone <= b.news[i] && (oldest.Some? ==> oldest.value in b.news[i] - gone)
    ensures Expires(b, i, if oldest.None? then gone else gone + {oldest.value}, now)
  {
    assert gone == set k | k in b.news[i] && IsBad(b.index[k], now);
  }

  lemma DropOneMore(b: Book, i: nat, gone: set<Key>, k: Key)
    requires i < |b.news| && gone <= b.news[i] <= b.index.Keys && k in b.news[i] - gone
    ensures b.Drop(i, gone).news[i] <= b.Drop(i, gone).index.Keys
    ensures b.Drop(i, gone).Drop(i, {k}) == b.Drop(i, gone + {k})
  {
    var b1, b2 := b.Drop(i, gone), b.Drop(i, gone + {k});
    assert b.Last(gone + {k}) == b.Last(gone) + b1.Last({k});
    assert b1.Drop(i, {k}).index == b2.index;
    assert b1.Drop(i, {k}).news == b2.news by { assert b.news[i] - gone - {k} == b.news[i] - (gone + {k}); }
  }

  lemma PlaceRefs(b: Book, i: nat, k: Key, pending: set<Key>)
    requires RefsOf(b.index, b.news, pending) && i < |b.news| && k in b.index && k !in b.news[i]
    requires b.index[k].refs < NEW_BUCKETS_PER_ADDRESS
    ensures RefsOf(b.Place(i, k).index, b.Place(i, k).news, pending - {k})
  {
    var b' := b.Place(i, k);
    forall k' | k' in b'.index
      ensures b'.index[k'].refs == |Holders(b'.news, k')|
    {
      HolderCount(b.news, i, b.news[i] + {k}, k');
    }
  }

  lemma PlaceKeepsInv(b: Book, h: Hashes, i: nat, k: Key, pending: set<Key>)
    requires b.Inv(h, pending) && i < |b.news| && k in b.index && !b.index[k].tried && k !in b.news[i]
    requires b.index[k].refs < NEW_BUCKETS_PER_ADDRESS && |b.news[i]| <= NEW_BUCKET_SIZE
    ensures b.Place(i, k).Inv(h, pending - {k})
  {
    hide ListsOf, RefsOf;
    PlaceRefs(b, i, k, pending);
    var b' := b.Place(i, k);
    assert b'.NewKeys() == b.NewKeys() && b'.TriedKeys() == b.TriedKeys();
    MakeInv(b', h, pending - {k}, b.NewKeys(), b.TriedKeys());
  }

  lemma AdmitRefs(b: Book, h: Hashes, na: NetAddress, src: NetAddress)
    requires b.Inv(h) && na.key !in b.index
    ensures BucketsOf(b.news, b.NewKeys() + {na.key}) && RefsOf(b.Admit(na, src).index, b.news, {na.key})
  {
    hide ListsOf;
    assert Holders(b.news, na.key) == {};
  }

  lemma AdmitKeepsInv(b: Book, h: Hashes, na: NetAddress, src: NetAddress)
    requires b.Inv(h) && na.key !in b.index
    ensures b.Admit(na, src).Inv(h, {na.key})
  {
    hide ListsOf, BucketsOf, RefsOf;
    var b' := b.Admit(na, src);
    AdmitRefs(b, h, na, src);
    assert b'.NewKeys() == b.NewKeys() + {na.key} && b'.TriedKeys() == b.TriedKeys();
    MakeInv(b', h, {na.key}, b.NewKeys() + {na.key}, b.TriedKeys());
  }

  lemma WithdrawNext(b: Book, k: Key, n: nat)
    requires k in b.index && n < |b.news|
    ensures |b.Withdraw(k, n).news| == |b.news| && b.Withdraw(k, n).news[n] == b.news[n]
    ensures b.Withdraw(k, n + 1) == if k in b.news[n] then b.Withdraw(k, n).Unlink(n, k) else b.Withdraw(k, n)
  {
    hide Holders, Without;
    WithdrawParts(b.news, k, n);
    assert b.Withdraw(k, n + 1).news == b.Withdraw(k, n).news[n := b.news[n] - {k}];
    assert k !in b.news[n] ==> b.news[n] - {k} == b.news[n];
  }

  lemma WithdrawParts(news: seq<set<Key>>, k: Key, n: nat)
    requires n < |news|
    ensures |Holders(news[..n + 1], k)| == |Holders(news[..n], k)| + if k in news[n] then 1 else 0
    ensures Without(news[..n + 1], k) == Without(news[..n], k) + [news[n] - {k}]
  {
    assert Holders(news[..n + 1], k) == Holders(news[..n], k) + if k in news[n] then {n} else {};
    assert Without(news[..n + 1], k) == Without(news[..n], k) + [news[n] - {k}];
  }

  lemma WithdrawEnds(b: Book, k: Key)
    requires k in b.index
    ensures b.Withdraw(k, 0) == b
    ensures b.index[k].refs == |Holders(b.news, k)| ==>
              b.Withdraw(k, |b.news|) == b.(index := b.index[k := b.index[k].(refs := 0)], news := Without(b.news, k))
  {
    assert b.news[..|b.news|] == b.news && b.news[..0] == [];
    assert Without(b.news[..0], k) + b.news[0..] == b.news;
    assert Without(b.news, k) + b.news[|b.news|..] == Without(b.news, k);
    assert Holders(b.news[..0], k) == {};
    assert b.index[k := b.index[k]] == b.index;
  }

  lemma WithoutRefs(b: Book, k: Key, index: map<Key, Entry>, pending: set<Key>)
    requires RefsOf(b.index, b.news, {}) && k in b.index && index.Keys == b.index.Keys
    requires index[k] == b.index[k].(tried := true, refs := 0)
    requires forall k' | k' in index && k' != k :: index[k'] == b.index[k'] || (k' in pending && index[k'] == b.index[k'].(tried := false))
    ensures RefsOf(index, Without(b.news, k), pending)
  {
    forall k' | k' in index
      ensures index[k'].refs == |Holders(Without(b.news, k), k')|
    {
      assert Holders(Without(b.news, k), k') == if k' == k then {} else Holders(b.news, k');
    }
  }

  lemma WithoutBuckets(news: seq<set<Key>>, newKeys: set<Key>, k: Key, newKeys': set<Key>)
    requires BucketsOf(news, newKeys) && newKeys - {k} <= newKeys'
    ensures BucketsOf(Without(news, k), newKeys')
  {
  }

  /** The lists stay exact when a list with room takes one more address. */
  lemma PromoteLists(tried: seq<seq<Key>>, triedKeys: set<Key>, h: Hashes, k: Key)
    requires ListsOf(tried, triedKeys, h) && k !in triedKeys
    requires |tried[h.TriedBucket(k)]| < TRIED_BUCKET_SIZE
    ensures var b := h.TriedBucket(k); ListsOf(tried[b := tried[b] + [k]], triedKeys + {k}, h)
  {
  }

  /** The lists stay exact when an address takes another one's place. */
  lemma ExchangeLists(tried: seq<seq<Key>>, triedKeys: set<Key>, h: Hashes, k: Key, p: nat)
    requires ListsOf(tried, triedKeys, h) && k !in triedKeys && p < |tried[h.TriedBucket(k)]|
    ensures var b := h.TriedBucket(k);
            ListsOf(tried[b := tried[b][p := k]], triedKeys + {k} - {tried[b][p]}, h)
  {
    var b := h.TriedBucket(k);
    var out, tried' := tried[b][p], tried[b := tried[b][p := k]];
    forall k' | k' in triedKeys + {k} - {out}
      ensures k' in tried'[h.TriedBucket(k')]
    {
      var c := h.TriedBucket(k');
      if k' == k {
        assert tried'[b][p] == k;
      } else {
        var i :| 0 <= i < |tried[c]| && tried[c][i] == k';
        assert tried'[c][i] == k';
      }
    }
  }

  lemma MakeInv(b: Book, h: Hashes, pending: set<Key>, newKeys: set<Key>, triedKeys: set<Key>)
    requires newKeys == b.NewKeys() && triedKeys == b.TriedKeys()
    requires BucketsOf(b.news, newKeys) && ListsOf(b.tried, triedKeys, h) && RefsOf(b.index, b.news, pending)
    requires b.nNew == |newKeys| && b.nTried == |triedKeys|
    ensures b.Inv(h, pending)
  {
    forall k | k in b.TriedKeys()
      ensures k in b.tried[h.TriedBucket(k)]
    {
      assert k in triedKeys;
    }
  }

  lemma PromoteKeys(b: Book, h: Hashes, k: Key)
    requires k in b.NewKeys() && h.TriedBucket(k) < |b.tried|
    requires RefsOf(b.index, b.news, {})
    ensures var c := h.TriedBucket(k);
            b.Promote(k, c) == Book(b.index[k := b.index[k].(tried := true, refs := 0)], Without(b.news, k),
                                    b.tried[c := b.tried[c] + [k]], b.nNew - 1, b.nTried + 1)
    ensures var b' := b.Promote(k, h.TriedBucket(k));
            b'.NewKeys() == b.NewKeys() - {k} && b'.TriedKeys() == b.TriedKeys() + {k}
  {
    WithdrawEnds(b, k);
  }

  lemma PromoteKeepsInv(b: Book, h: Hashes, k: Key)
    requires b.Inv(h) && k in b.NewKeys() && |b.tried[h.TriedBucket(k)]| < TRIED_BUCKET_SIZE
    ensures b.Promote(k, h.TriedBucket(k)).Inv(h)
  {
    hide BucketsOf, RefsOf;
    var b' := b.Promote(k, h.TriedBucket(k));
    PromoteKeys(b, h, k);
    WithoutRefs(b, k, b'.index, {});
    WithoutBuckets(b.news, b.NewKeys(), k, b'.NewKeys());
    PromoteLists(b.tried, b.TriedKeys(), h, k);
    MakeInv(b', h, {}, b.NewKeys() - {k}, b.TriedKeys() + {k});
  }

  lemma ExchangeKeys(b: Book, k: Key, c: nat, p: nat)
    requires k in b.NewKeys() && c < |b.tried| && p < |b.tried[c]| && b.tried[c][p] in b.TriedKeys()
    requires RefsOf(b.index, b.news, {})
    ensures var out := b.tried[c][p];
            b.Exchange(k, c, p) == b.(index := b.index[k := b.index[k].(tried := true, refs := 0)][out := b.index[out].(tried := false)],
                                      news := Without(b.news, k), tried := b.tried[c := b.tried[c][p := k]])
    ensures var b', out := b.Exchange(k, c, p), b.tried[c][p];
            b'.NewKeys() == b.NewKeys() - {k} + {out} && b'.TriedKeys() == b.TriedKeys() + {k} - {out}
  {
    WithdrawEnds(b, k);
  }

  lemma ExchangeKeepsInv(b: Book, h: Hashes, k: Key, p: nat)
    requires b.Inv(h) && k in b.NewKeys() && p < |b.tried[h.TriedBucket(k)]|
    ensures var c := h.TriedBucket(k); b.Exchange(k, c, p).Inv(h, {b.tried[c][p]})
  {
    hide BucketsOf, RefsOf;
    var c := h.TriedBucket(k);
    var b', out := b.Exchange(k, c, p), b.tried[c][p];
    ExchangeKeys(b, k, c, p);
    WithoutRefs(b, k, b'.index, {out});
    WithoutBuckets(b.news, b.NewKeys(), k, b'.NewKeys());
    ExchangeLists(b.tried, b.TriedKeys(), h, k, p);
    MakeInv(b', h, {out}, b.NewKeys() - {k} + {out}, b.TriedKeys() + {k} - {out});
  }

  /** Where `k` stands in the tried lists: (list number, position) pairs. */
  ghost function Places(tried: seq<seq<Key>>, k: Key): set<(nat, nat)> {
    set b: nat, i: nat | b < |tried| && i < |tried[b]| && tried[b][i] == k :: (b, i)
  }

  /** What the invariant says of one address: it is tried, and then once in one
      list and in no bucket, or new, and then in one to eight buckets and no list. */
  lemma TriedXorNew(b: Book, h: Hashes, k: Key)
    requires b.Inv(h) && k in b.index
    ensures b.index[k].refs == |Holders(b.news, k)|
    ensures b.index[k].tried ==> Holders(b.news, k) == {} && |Places(b.tried, k)| == 1
    ensures !b.index[k].tried ==> 1 <= |Holders(b.news, k)| <= NEW_BUCKETS_PER_ADDRESS && Places(b.tried, k) == {}
  {
    if b.index[k].tried {
      assert k in b.TriedKeys() && k !in b.NewKeys();
      var c := h.TriedBucket(k);
      var i :| 0 <= i < |b.tried[c]| && b.tried[c][i] == k;
      assert Places(b.tried, k) == {(c, i)};
    }
  }

  /** The counters split the index, and each non-zero counter has a non-empty bucket behind it. */
  lemma CountersAgree(b: Book, h: Hashes)
    requires b.Inv(h)
    ensures b.nNew >= 0 && b.nTried >= 0 && b.nNew + b.nTried == |b.index|
    ensures b.nNew > 0 ==> exists i: nat :: i < |b.news| && b.news[i] != {}
    ensures b.nTried > 0 ==> exists i: nat :: i < |b.tried| && b.tried[i] != []
  {
    assert b.NewKeys() + b.TriedKeys() == b.index.Keys;
    if k :| k in b.NewKeys() {
      var i :| i in Holders(b.news, k);
      assert b.news[i] != {};
    }
    if k :| k in b.TriedKeys() {
      assert b.tried[h.TriedBucket(k)] != [];
    }
  }

  /** An entry may change its times, services and attempts freely. */
  lemma TouchKeepsInv(b: Book, h: Hashes, k: Key, e: Entry, pending: set<Key>)
    requires b.Inv(h, pending) && k in b.index
    requires e.na.key == k && e.tried == b.index[k].tried && e.refs == b.index[k].refs
    ensures b.Touch(k, e).Inv(h, pending)
  {
    hide ListsOf, BucketsOf;
    var b' := b.Touch(k, e);
    assert b'.NewKeys() == b.NewKeys() && b'.TriedKeys() == b.TriedKeys();
    assert RefsOf(b'.index, b'.news, pending);
    MakeInv(b', h, pending, b.NewKeys(), b.TriedKeys());
  }

  /** An announcement of a known address refreshes its time stamp and services. */
  ghost function Refreshed(e: Entry, na: NetAddress): Entry {
    if na.timestamp > e.na.timestamp || !(na.services <= e.na.services)
    then e.(na := e.na.(timestamp := na.timestamp, services := e.na.services + na.services))
    else e
  }

  ghost function Seen(b: Book, na: NetAddress, src: NetAddress): Book {
    if na.key in b.index then b.Touch(na.key, Refreshed(b.index[na.key], na)) else b.Admit(na, src)
  }

  /** An announcement of a routable address; `skip` is the coin that keeps a known address from spreading. */
  ghost predicate AddStep(b: Book, h: Hashes, na: NetAddress, src: NetAddress, skip: bool, now: int, b': Book)
    requires b.Shaped()
  {
    var k, i, b1 := na.key, h.NewBucket(na, src), Seen(b, na, src);
    if k in b.index && (b.index[k].tried || b.index[k].refs == NEW_BUCKETS_PER_ADDRESS || skip) then b' == b1
    else SpreadStep(b1, i, k, now, b')
  }

  /** A known address enters bucket `i`, after an expiry if the bucket is over its nominal size. */
  ghost predicate SpreadStep(b: Book, i: nat, k: Key, now: int, b': Book)
    requires i < |b.news| && k in b.index
  {
    if k in b.news[i] then b' == b
    else if |b.news[i]| <= NEW_BUCKET_SIZE then b' == b.Place(i, k)
    else exists gone: set<Key> :: ExpiredAndPlaced(b, i, gone, now, k, b')
  }

  ghost predicate ExpiredAndPlaced(b: Book, i: nat, gone: set<Key>, now: int, k: Key, b': Book) {
    && i < |b.news| && gone <= b.news[i] <= b.index.Keys && Expires(b, i, gone, now)
    && k in b.Drop(i, gone).index && b' == b.Drop(i, gone).Place(i, k)
  }

  lemma SeenKeepsInv(b: Book, h: Hashes, na: NetAddress, src: NetAddress)
    requires b.Inv(h)
    ensures Seen(b, na, src).news == b.news && (na.key !in b.index ==> forall i | 0 <= i < |b.news| :: na.key !in b.news[i])
    ensures Seen(b, na, src).Inv(h, if na.key in b.index then {} else {na.key})
    ensures na.key in Seen(b, na, src).index
    ensures na.key !in b.index ==> Seen(b, na, src).index[na.key].refs == 0 && !Seen(b, na, src).index[na.key].tried
    ensures na.key in b.index ==>
              && Seen(b, na, src).index[na.key].refs == b.index[na.key].refs
              && Seen(b, na, src).index[na.key].tried == b.index[na.key].tried
  {
    if na.key in b.index {
      TouchKeepsInv(b, h, na.key, Refreshed(b.index[na.key], na), {});
    } else {
      AdmitKeepsInv(b, h, na, src);
    }
  }

  /** An expiry makes room, and leaves alone an address that is not in the bucket. */
  lemma ExpiryMakesRoom(b: Book, h: Hashes, i: nat, gone: set<Key>, now: int, k: Key, pending: set<Key>)
    requires b.Inv(h, pending) && i < |b.news| && gone <= b.news[i] && gone !! pending && Expires(b, i, gone, now)
    requires k in b.index && k !in b.news[i] && b.news[i] != {}
    ensures var b' := b.Drop(i, gone);
            && b'.Inv(h, pending) && k in b'.index && b'.index[k] == b.index[k] && |b'.news| == |b.news|
            && |b'.news[i]| < |b.news[i]| && k !in b'.news[i]
  {
    DropKeepsInv(b, h, i, gone, pending);
    assert gone != {};
    assert |b.news[i] - gone| == |b.news[i]| - |gone|;
  }

  lemma SpreadStepKeepsInv(b: Book, h: Hashes, i: nat, k: Key, now: int, pending: set<Key>, b': Book)
    requires b.Inv(h, pending) && i < |b.news| && k in b.index && pending <= {k} && (k in pending ==> k !in b.news[i])
    requires !b.index[k].tried && b.index[k].refs < NEW_BUCKETS_PER_ADDRESS && SpreadStep(b, i, k, now, b')
    ensures b'.Inv(h)
  {
    hide ListsOf, BucketsOf, RefsOf, Book.Drop, Book.Place, Expires;
    InvShape(b, h, pending);
    assert pending - {k} == {};
    if k in b.news[i] {
      assert pending == {};
    } else if |b.news[i]| <= NEW_BUCKET_SIZE {
      PlaceKeepsInv(b, h, i, k, pending);
    } else {
      var gone :| ExpiredAndPlaced(b, i, gone, now, k, b');
      BucketSize(b, h, i, pending);
      ExpiryMakesRoom(b, h, i, gone, now, k, pending);
      InvShape(b.Drop(i, gone), h, pending);
      PlaceKeepsInv(b.Drop(i, gone), h, i, k, pending);
    }
  }

  lemma BucketSize(b: Book, h: Hashes, i: nat, pending: set<Key>)
    requires b.Inv(h, pending) && i < |b.news|
    ensures |b.news[i]| <= NEW_BUCKET_SIZE + 1
  {
  }

  lemma AddStepKeepsInv(b: Book, h: Hashes, na: NetAddress, src: NetAddress, skip: bool, now: int, b': Book)
    requires b.Inv(h) && b.Shaped() && AddStep(b, h, na, src, skip, now, b')
    ensures b'.Inv(h)
  {
    hide ListsOf, BucketsOf, RefsOf, SpreadStep, Seen;
    var k, i, b1 := na.key, h.NewBucket(na, src), Seen(b, na, src);
    SeenKeepsInv(b, h, na, src);
    if !(k in b.index && (b.index[k].tried || b.index[k].refs == NEW_BUCKETS_PER_ADDRESS || skip)) {
      if k in b.index { IndexKey(b, h, k); }
      SpreadStepKeepsInv(b1, h, i, k, now, if k in b.index then {} else {k}, b');
    }
  }

  /** Position `p` holds the first of the oldest addresses of a tried list. */
  ghost predicate FirstOldest(b: Book, list: seq<Key>, p: nat) {
    && p < |list| && (forall i | 0 <= i < |list| :: list[i] in b.index)
    && (forall i | 0 <= i < p :: b.index[list[p]].na.timestamp < b.index[list[i]].na.timestamp)
    && (forall i | p <= i < |list| :: b.index[list[p]].na.timestamp <= b.index[list[i]].na.timestamp)
  }

  /** The first bucket holding `k`. */
  ghost predicate FirstHolder(news: seq<set<Key>>, k: Key, i: nat) {
    i < |news| && k in news[i] && forall j | 0 <= j < i :: k !in news[j]
  }

  ghost function Stamped(e: Entry, now: int): Entry {
    e.(lastSuccess := now, lastAttempt := now, attempts := 0)
  }

  /** An address that was just connected to is bad exactly when a minute has passed and its
      time stamp lies in the future or more than a month back. */
  lemma StampedIsBadIff(e: Entry, now: int, later: int)
    ensures IsBad(Stamped(e, now), later) <==>
              && later >= now + MINUTE
              && (e.na.timestamp > later + 10 * MINUTE || e.na.timestamp < later - NUM_MISSING_DAYS * DAY)
  {
  }

  /** A tried list that is full evicts its oldest address into that address's
      own new bucket or, if that is full too, into the bucket `k` just left. */
  ghost predicate Evicted(b: Book, h: Hashes, k: Key, p: nat, left: nat, b': Book)
    requires k in b.index && b.Shaped()
  {
    var c := h.TriedBucket(k);
    && FirstOldest(b, b.tried[c], p) && FirstHolder(b.news, k, left)
    && var out := b.tried[c][p];
       var own := h.NewBucket(b.index[out].na, b.index[out].src);
       b' == b.Exchange(k, c, p).Place(if |Without(b.news, k)[own]| >= NEW_BUCKET_SIZE then left else own, out)
  }

  /** A successful connection to the address with key `k`. */
  ghost predicate GoodStep(b: Book, h: Hashes, k: Key, now: int, b': Book)
    requires b.Shaped()
  {
    if k !in b.index then b' == b
    else
      var b1 := b.Touch(k, Stamped(b.index[k], now));
      if b.index[k].tried then b' == b1
      else if |b.tried[h.TriedBucket(k)]| < TRIED_BUCKET_SIZE then b' == b1.Promote(k, h.TriedBucket(k))
      else exists p: nat, left: nat :: Evicted(b1, h, k, p, left, b')
  }

  lemma EvictedKeepsInv(b: Book, h: Hashes, k: Key, p: nat, left: nat, b': Book)
    requires b.Inv(h) && b.Shaped() && k in b.NewKeys() && Evicted(b, h, k, p, left, b')
    ensures b'.Inv(h)
  {
    hide RefsOf;
    var c := h.TriedBucket(k);
    var out := b.tried[c][p];
    var own := h.NewBucket(b.index[out].na, b.index[out].src);
    var i := if |Without(b.news, k)[own]| >= NEW_BUCKET_SIZE then left else own;
    assert out in b.TriedKeys() && out !in b.NewKeys();
    ExchangeKeepsInv(b, h, k, p);
    var b1 := b.Exchange(k, c, p);
    TriedRefs(b, h, out);
    assert |b.news[left] - {k}| == |b.news[left]| - 1;
    PlaceKeepsInv(b1, h, i, out, {out});
    assert {out} - {out} == {};
  }

  lemma NewHasHolder(b: Book, h: Hashes, k: Key)
    requires b.Inv(h) && k in b.NewKeys()
    ensures exists i :: 0 <= i < |b.news| && k in b.news[i]
  {
    var i :| i in Holders(b.news, k);
    assert k in b.news[i];
  }

  lemma LeaveShape(b: Book, h: Hashes, k: Key)
    requires b.Inv(h) && k in b.index
    ensures var b' := b.Leave(k);
            && b'.news == Without(b.news, k) && b'.tried == b.tried && b'.Shaped()
            && b'.index == b.index[k := b.index[k].(refs := 0)]
            && var w := b.Withdraw(k, |b.news|); b' == w.(nNew := w.nNew - 1)
  {
    WithdrawEnds(b, k);
  }

  /** The oldest position only depends on the addresses, not on the counts. */
  lemma SameOldest(b: Book, b0: Book, k: Key, c: nat, p: nat)
    requires k in b0.index && b.index == b0.index[k := b0.index[k].(refs := 0)] && b.tried == b0.tried && c < |b.tried|
    requires FirstOldest(b, b.tried[c], p)
    ensures FirstOldest(b0, b0.tried[c], p) && p < |b.tried[c]|
    ensures var out := b.tried[c][p]; out in b0.index && b.index[out].na == b0.index[out].na && b.index[out].src == b0.index[out].src
  {
  }

  lemma TriedRefs(b: Book, h: Hashes, k: Key)
    requires b.Inv(h) && k in b.TriedKeys()
    ensures b.index[k].refs == 0
  {
    TriedXorNew(b, h, k);
  }

  lemma GoodStepKeepsInv(b: Book, h: Hashes, k: Key, now: int, b': Book)
    requires b.Inv(h) && b.Shaped() && GoodStep(b, h, k, now, b')
    ensures b'.Inv(h)
  {
    hide ListsOf, BucketsOf, RefsOf, Book.Promote, Evicted;
    if k in b.index {
      IndexKey(b, h, k);
      var b1 := b.Touch(k, Stamped(b.index[k], now));
      TouchKeepsInv(b, h, k, Stamped(b.index[k], now), {});
      if !b.index[k].tried {
        if |b.tried[h.TriedBucket(k)]| < TRIED_BUCKET_SIZE {
          PromoteKeepsInv(b1, h, k);
        } else {
          var p: nat, left: nat :| Evicted(b1, h, k, p, left, b');
          EvictedKeepsInv(b1, h, k, p, left, b');
        }
      }
    }
  }

  lemma InvShape(b: Book, h: Hashes, pending: set<Key>)
    requires b.Inv(h, pending)
    ensures b.Shaped() && forall i | 0 <= i < |b.news| :: b.news[i] <= b.index.Keys
  {
  }

  lemma IndexKey(b: Book, h: Hashes, k: Key)
    requires b.Inv(h) && k in b.index
    ensures b.index[k].na.key == k && b.index[k].refs <= NEW_BUCKETS_PER_ADDRESS && b.Shaped()
  {
  }

  ghost predicate Step(b: Book, h: Hashes, b': Book) {
    && b.Shaped()
    && (|| (exists na, src, skip, now :: AddStep(b, h, na, src, skip, now, b'))
        || (exists k, now :: GoodStep(b, h, k, now, b')))
  }

  ghost predicate Fresh(b: Book) {
    && b.index == map[] && b.nNew == b.nTried == 0
    && b.Shaped()
    && (forall i | 0 <= i < |b.news| :: b.news[i] == {})
    && (forall i | 0 <= i < |b.tried| :: b.tried[i] == [])
  }

  /** Every state of every run of announcements and successes from a fresh manager is consistent. */
  lemma {:induction false} RunKeepsInv(run: seq<Book>, h: Hashes)
    requires run != [] && Fresh(run[0])
    requires forall i | 0 <= i < |run| - 1 :: Step(run[i], h, run[i + 1])
    ensures forall i | 0 <= i < |run| :: run[i].Inv(h)
  {
    hide AddStep, GoodStep, Fresh, ListsOf, BucketsOf, RefsOf, Book.Inv;
    if |run| == 1 {
      FreshInv(run[0], h);
    } else {
      var n := |run| - 2;
      RunKeepsInv(run[..|run| - 1], h);
      assert run[..|run| - 1][n].Inv(h);
      var b, b' := run[n], run[n + 1];
      if na, src, skip, now :| AddStep(b, h, na, src, skip, now, b') {
        AddStepKeepsInv(b, h, na, src, skip, now, b');
      } else {
        var k, now :| GoodStep(b, h, k, now, b');
        GoodStepKeepsInv(b, h, k, now, b');
      }
      forall i | 0 <= i < |run| ensures run[i].Inv(h) {
        if i <= n { assert run[..|run| - 1][i] == run[i]; }
      }
    }
  }

  lemma FreshInv(b: Book, h: Hashes)
    requires Fresh(b)
    ensures b.Inv(h)
  {
    assert b.NewKeys() == {} && b.TriedKeys() == {};
  }

  lemma ListedIsTried(b: Book, h: Hashes, c: nat, i: nat)
    requires b.Inv(h) && c < |b.tried| && i < |b.tried[c]|
    ensures b.tried[c][i] in b.TriedKeys()
  {
  }

  lemma BucketedIsNew(b: Book, h: Hashes, i: nat, k: Key)
    requires b.Inv(h) && i < |b.news| && k in b.news[i]
    ensures k in b.NewKeys()
  {
  }

  /** What `reset` leaves: empty storage and the old counters. */
  ghost function Cleared(b: Book): Book {
    Book(map[], seq(NEW_BUCKET_COUNT, _ => {}), seq(TRIED_BUCKET_COUNT, _ => []), b.nNew, b.nTried)
  }

  /** Resetting keeps the manager consistent exactly when there was nothing to reset. */
  lemma ResetIff(b: Book, h: Hashes)
    requires b.Inv(h)
    ensures Cleared(b).Inv(h) <==> b.index == map[]
  {
    CountersAgree(b, h);
    assert Cleared(b).NewKeys() == {} && Cleared(b).TriedKeys() == {};
    if b.index == map[] {
      FreshInv(Cleared(b), h);
    }
  }
}
