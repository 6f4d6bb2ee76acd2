/** The address manager itself: one object per known address, shared between the
    index and the buckets and updated in place.  The clock and the random source
    are parameters. */
module AddrManager {
  import opened AddrBook
  import opened AddrChance
  import opened AddrEffects
  import opened AddrFile
  import opened Options

  class KnownAddress {
    var na: NetAddress
    var srcAddr: NetAddress
    var attempts: int
    var lastAttempt: int
    var lastSuccess: int
    var tried: bool
    var refs: int

    constructor (na: NetAddress, srcAddr: NetAddress)
      ensures View() == Entry(na, srcAddr, 0, ZERO_TIME, ZERO_TIME, false, 0)
    {
      this.na, this.srcAddr, refs, tried := na, srcAddr, 0, false;
      attempts, lastAttempt, lastSuccess := 0, ZERO_TIME, ZERO_TIME;
    }

    ghost function View(): Entry
      reads this
    {
      Entry(na, srcAddr, attempts, lastAttempt, lastSuccess, tried, refs)
    }

    method IsBad(now: int) returns (bad: bool)
      ensures bad == AddrBook.IsBad(View(), now)
    {
      if lastAttempt > now - MINUTE { return false; }
      if na.timestamp > now + 10 * MINUTE { return true; }
      if na.timestamp < now - NUM_MISSING_DAYS * DAY { return true; }
      if lastSuccess == ZERO_TIME && attempts >= NUM_RETRIES { return true; }
      if lastSuccess <= now - MIN_BAD_DAYS * DAY && attempts >= MAX_FAILURES { return true; }
      return false;
    }

    /** The probability with which the address is taken when it is drawn. */
    method Chance(now: int) returns (c: real)
      ensures c == AddrChance.Chance(View(), now)
    {
      var since := now - lastAttempt;
      if since < 0 { since := 0; }
      c := 1.0;
      if since < 10 * MINUTE { c := c * 0.01; }
      var i := attempts;
      while i > 0
        invariant Decayed(c, if i < 0 then 0 else i) == AddrChance.Chance(View(), now)
      {
        c := c / 1.5;
        i := i - 1;
      }
    }

    method Taken(d: Draw, factor: real) returns (taken: bool)
      ensures taken <==> Accepts(View(), d, factor)
    {
      var c := Chance(d.now);
      taken := d.randval as real < factor * c * LARGE as real;
    }
  }

  /** The bucket maps have the given keys and point at the index's objects. */
  ghost predicate BucketsShow(maps: seq<map<Key, KnownAddress>>, news: seq<set<Key>>, index: map<Key, KnownAddress>) {
    && |maps| == |news|
    && forall i | 0 <= i < |maps| ::
         maps[i].Keys == news[i] && forall k | k in maps[i] :: k in index && maps[i][k] == index[k]
  }

  /** The tried lists are the index's objects for the given keys, in order. */
  ghost predicate ListsShow(lists: seq<seq<KnownAddress>>, tried: seq<seq<Key>>, index: map<Key, KnownAddress>) {
    && |lists| == |tried|
    && forall b | 0 <= b < |lists| ::
         |lists[b]| == |tried[b]| && forall i | 0 <= i < |lists[b]| :: tried[b][i] in index && lists[b][i] == index[tried[b][i]]
  }

  lemma ShowUnlink(maps: seq<map<Key, KnownAddress>>, news: seq<set<Key>>, index: map<Key, KnownAddress>, i: nat, k: Key)
    requires BucketsShow(maps, news, index) && i < |maps|
    ensures BucketsShow(maps[i := maps[i] - {k}], news[i := news[i] - {k}], index)
  {
  }

  lemma TiedIndex(m: AddrManager)
    requires m.Tied()
    ensures m.addrIndex.Keys == m.book.index.Keys && |m.addrNew| == |m.book.news| && |m.addrTried| == |m.book.tried|
  {
  }

  lemma TiedKey(m: AddrManager, k: Key)
    requires m.Tied() && k in m.addrIndex
    ensures k in m.book.index && m.addrIndex[k].View() == m.book.index[k] && m.addrIndex[k].na.key == k
  {
  }

  lemma TiedLists(m: AddrManager, i: nat)
    requires m.Tied() && i < |m.book.tried|
    ensures i < |m.addrTried| && |m.addrTried[i]| == |m.book.tried[i]|
  {
  }

  lemma TiedBucket(m: AddrManager, i: nat)
    requires m.Tied() && i < |m.addrNew|
    ensures i < |m.book.news| && m.addrNew[i].Keys == m.book.news[i] && |m.addrNew[i]| == |m.book.news[i]|
  {
  }

  /** What `Tied` says of one bucket entry. */
  lemma TiedEntry(m: AddrManager, i: nat, k: Key)
    requires m.Tied() && i < |m.book.news| && k in m.book.news[i]
    ensures i < |m.addrNew| && k in m.addrNew[i] && k in m.addrIndex && m.addrNew[i][k] == m.addrIndex[k]
    ensures k in m.book.index && m.addrIndex[k].View() == m.book.index[k] && m.addrIndex[k].na.key == k
  {
  }

  lemma ShowLink(maps: seq<map<Key, KnownAddress>>, news: seq<set<Key>>, index: map<Key, KnownAddress>, i: nat, k: Key)
    requires BucketsShow(maps, news, index) && i < |maps| && k in index
    ensures BucketsShow(maps[i := maps[i][k := index[k]]], news[i := news[i] + {k}], index)
  {
  }

  lemma UnknownUnlisted(m: AddrManager, k: Key)
    requires m.Tied() && k !in m.addrIndex
    ensures m.book.Unlisted(k)
  {
  }

  lemma ShowAdmit(m: AddrManager, k: Key, ka: KnownAddress)
    requires m.Tied() && m.book.Unlisted(k)
    ensures BucketsShow(m.addrNew, m.book.news, m.addrIndex[k := ka])
    ensures ListsShow(m.addrTried, m.book.tried, m.addrIndex[k := ka])
  {
  }

  lemma TiedList(m: AddrManager, b: nat)
    requires m.Tied() && b < |m.addrTried|
    ensures b < |m.book.tried| && |m.addrTried[b]| == |m.book.tried[b]|
    ensures forall i | 0 <= i < |m.addrTried[b]| ::
              m.book.tried[b][i] in m.addrIndex && m.addrTried[b][i] == m.addrIndex[m.book.tried[b][i]]
  {
  }

  lemma ShowPush(lists: seq<seq<KnownAddress>>, tried: seq<seq<Key>>, index: map<Key, KnownAddress>, b: nat, k: Key)
    requires ListsShow(lists, tried, index) && b < |lists| && k in index
    ensures ListsShow(lists[b := lists[b] + [index[k]]], tried[b := tried[b] + [k]], index)
  {
  }

  lemma ShowSwap(lists: seq<seq<KnownAddress>>, tried: seq<seq<Key>>, index: map<Key, KnownAddress>, b: nat, p: nat, k: Key)
    requires ListsShow(lists, tried, index) && b < |lists| && p < |lists[b]| && k in index
    ensures ListsShow(lists[b := lists[b][p := index[k]]], tried[b := tried[b][p := k]], index)
  {
  }

  lemma ShowForget(m: AddrManager, k: Key)
    requires m.Tied() && m.book.Unlisted(k)
    ensures BucketsShow(m.addrNew, m.book.news, m.addrIndex - {k})
    ensures ListsShow(m.addrTried, m.book.tried, m.addrIndex - {k})
  {
  }

  lemma StartExpiry(m: AddrManager, i: nat, now: int, pending: set<Key>)
    requires m.Tied() && m.book.Inv(m.hashes, pending) && i < |m.addrNew| && m.addrNew[i].Keys !! pending
    ensures i < |m.book.news| && m.addrNew[i].Keys == m.book.news[i] <= m.book.index.Keys
    ensures m.Expiring(m.book, i, {}, {}, null, now, pending)
  {
    DropNothing(m.book, i);
  }

  class AddrManager {
    var addrIndex: map<Key, KnownAddress>
    var addrNew: seq<map<Key, KnownAddress>>
    var addrTried: seq<seq<KnownAddress>>
    var nNew: int
    var nTried: int
    const hashes: Hashes
    ghost var book: Book

    ghost predicate IndexTied()
      reads this, addrIndex.Values
    {
      && addrIndex.Keys == book.index.Keys
      && forall k | k in addrIndex :: addrIndex[k].View() == book.index[k] && addrIndex[k].na.key == k
    }

    /** The objects and counters show exactly the contents of `book`. */
    ghost predicate Tied()
      reads this, addrIndex.Values
    {
      && IndexTied() && BucketsShow(addrNew, book.news, addrIndex) && ListsShow(addrTried, book.tried, addrIndex)
      && nNew == book.nNew && nTried == book.nTried
    }

    ghost predicate Valid()
      reads this, addrIndex.Values
    {
      Tied() && book.Inv(hashes)
    }

    constructor (hashes: Hashes)
      ensures Valid() && this.hashes == hashes && Fresh(book) && addrIndex == map[]
    {
      this.hashes := hashes;
      addrIndex := map[];
      addrNew := seq(NEW_BUCKET_COUNT, _ => map[]);
      addrTried := seq(TRIED_BUCKET_COUNT, _ => []);
      nNew, nTried := 0, 0;
      book := Book(map[], seq(NEW_BUCKET_COUNT, _ => {}), seq(TRIED_BUCKET_COUNT, _ => []), 0, 0);
    }

    /** Takes an address out of a bucket and counts one reference less. */
    method Unlink(bucket: nat, k: Key)
      requires Tied() && bucket < |addrNew| && k in addrNew[bucket]
      modifies this`addrNew, this`book, {addrIndex[k]}`refs
      ensures Tied() && book == old(book).Unlink(bucket, k)
      ensures addrIndex[k].refs == old(addrIndex[k].refs) - 1
    {
      hide BucketsShow, ListsShow;
      TiedBucket(this, bucket);
      TiedEntry(this, bucket, k);
      var ka := addrNew[bucket][k];
      ShowUnlink(addrNew, book.news, addrIndex, bucket, k);
      book := book.Unlink(bucket, k);
      addrNew := addrNew[bucket := addrNew[bucket] - {k}];
      ka.refs := ka.refs - 1;
      forall k' | k' in addrIndex ensures addrIndex[k'].View() == book.index[k'] && addrIndex[k'].na.key == k' {
        if k' != k { assert old(addrIndex[k'].View()) == addrIndex[k'].View(); }
      }
    }

    /** Takes an address that no bucket holds any more off the counter and the index. */
    method Forget(k: Key)
      requires Tied() && book.Unlisted(k)
      modifies this`nNew, this`addrIndex, this`book
      ensures Tied() && book == old(book).Forget(k) && addrIndex == old(addrIndex) - {k}
    {
      ShowForget(this, k);
      nNew := nNew - 1;
      addrIndex := addrIndex - {k};
      book := book.Forget(k);
    }

    /** The shared tail of both expiry paths: drop `k` from a bucket, and forget
        it once no bucket holds it. */
    method Release(bucket: nat, k: Key, ghost pending: set<Key>)
      requires Tied() && book.Inv(hashes, pending) && bucket < |addrNew| && k in addrNew[bucket] && k !in pending
      modifies this, {addrIndex[k]}`refs
      ensures Tied() && book.Inv(hashes, pending) && book == old(book).Drop(bucket, {k})
      ensures addrIndex == old(addrIndex) || addrIndex == old(addrIndex) - {k}
    {
      hide Book.Inv, Book.Drop, Book.Unlink, Book.Forget, Book.Unlisted, Tied;
      TiedBucket(this, bucket);
      TiedEntry(this, bucket, k);
      DropOne(book, hashes, bucket, k, pending);
      DropKeepsInv(book, hashes, bucket, {k}, pending);
      var ka := addrNew[bucket][k];
      Unlink(bucket, k);
      if ka.refs == 0 {
        Forget(k);
      }
    }

    /** Halfway through an expiry of bucket `i` of `b`: of the entries `seen`, the bad
        ones are `gone` and `oldest` is an oldest of the rest. */
    ghost predicate Expiring(b: Book, i: nat, seen: set<Key>, gone: set<Key>, oldest: KnownAddress?, now: int, pending: set<Key>)
      reads this, addrIndex.Values, oldest
    {
      && Tied() && book.Inv(hashes, pending)
      && i < |b.news| && gone <= seen <= b.news[i] <= b.index.Keys && b.news[i] !! pending
      && book == b.Drop(i, gone)
      && Scanned(b, seen, gone, if oldest == null then None else Some(oldest.na.key), now)
      && (oldest != null ==>
            var k := oldest.na.key; k in seen - gone && k in addrIndex && addrIndex[k] == oldest)
    }

    method ExpireOne(ghost b: Book, i: nat, ghost seen: set<Key>, ghost gone: set<Key>, oldest: KnownAddress?, now: int,
                     ghost pending: set<Key>, k: Key)
      returns (ghost gone': set<Key>, oldest': KnownAddress?)
      requires Expiring(b, i, seen, gone, oldest, now, pending) && k in b.news[i] - seen
      modifies this, addrIndex.Values`refs
      ensures Expiring(b, i, seen + {k}, gone', oldest', now, pending)
      ensures addrIndex.Values <= old(addrIndex).Values
    {
      hide Book.Inv, Book.Drop, Scanned, Tied;
      gone', oldest' := gone, oldest;
      DropSpares(b, i, gone, k);
      TiedEntry(this, i, k);
      if oldest != null {
        DropSpares(b, i, gone, oldest.na.key);
        TiedEntry(this, i, oldest.na.key);
      }
      ScanOne(b, seen, gone, if oldest == null then None else Some(oldest.na.key), now, k);
      var v := addrNew[i][k];
      var bad := v.IsBad(now);
      if bad {
        DropOneMore(b, i, gone, k);
        Release(i, k, pending);
        gone' := gone + {k};
      } else if oldest == null || v.na.timestamp <= oldest.na.timestamp {
        oldest' := v;
      }
    }

    /** Expires every bad entry of a bucket and the oldest of the others. */
    method ExpireNew(bucket: nat, now: int, ghost pending: set<Key>) returns (ghost gone: set<Key>)
      requires Tied() && book.Inv(hashes, pending) && bucket < |addrNew| && addrNew[bucket].Keys !! pending
      modifies this, addrIndex.Values`refs
      ensures gone <= old(book).news[bucket] <= old(book).index.Keys && Expires(old(book), bucket, gone, now)
      ensures Tied() && book.Inv(hashes, pending) && book == old(book).Drop(bucket, gone)
      ensures addrIndex.Values <= old(addrIndex).Values
    {
      hide Book.Inv, Book.Drop, Scanned, Expires, Tied, Expiring;
      StartExpiry(this, bucket, now, pending);
      ghost var b, all := book, book.news[bucket];
      var todo := addrNew[bucket].Keys;
      var oldest: KnownAddress? := null;
      gone := {};
      assert all - todo == {};
      while todo != {}
        invariant todo <= all && Expiring(b, bucket, all - todo, gone, oldest, now, pending)
        invariant addrIndex.Values <= old(addrIndex).Values
        decreases todo
      {
        var k :| k in todo;
        gone, oldest := ExpireOne(b, bucket, all - todo, gone, oldest, now, pending, k);
        assert all - (todo - {k}) == all - todo + {k};
        todo := todo - {k};
      }
      assert all - todo == all;
      gone := ExpireOldest(b, bucket, gone, oldest, now, pending);
    }

    method ExpireOldest(ghost b: Book, i: nat, ghost gone: set<Key>, oldest: KnownAddress?, now: int, ghost pending: set<Key>)
      returns (ghost gone': set<Key>)
      requires i < |b.news| && Expiring(b, i, b.news[i], gone, oldest, now, pending)
      modifies this, addrIndex.Values`refs
      ensures gone' <= b.news[i] <= b.index.Keys && Expires(b, i, gone', now)
      ensures Tied() && book.Inv(hashes, pending) && book == b.Drop(i, gone')
      ensures addrIndex.Values <= old(addrIndex).Values
    {
      hide Book.Inv, Book.Drop, Scanned, Expires, Tied;
      gone' := gone;
      ScanAll(b, i, gone, if oldest == null then None else Some(oldest.na.key), now);
      if oldest != null {
        var key := oldest.na.key;
        DropSpares(b, i, gone, key);
        TiedEntry(this, i, key);
        DropOneMore(b, i, gone, key);
        Release(i, key, pending);
        gone' := gone + {key};
      }
    }

    /** Enters an address into a bucket and counts one reference more. */
    method Link(bucket: nat, k: Key)
      requires Tied() && bucket < |addrNew| && k in addrIndex
      modifies this`addrNew, this`book, {addrIndex[k]}`refs
      ensures k in old(book).index && bucket < |old(book).news|
      ensures Tied() && book == old(book).Place(bucket, k) && |addrNew| == old(|addrNew|)
    {
      hide BucketsShow, ListsShow;
      TiedBucket(this, bucket);
      var ka := addrIndex[k];
      ShowLink(addrNew, book.news, addrIndex, bucket, k);
      book := book.Place(bucket, k);
      ka.refs := ka.refs + 1;
      addrNew := addrNew[bucket := addrNew[bucket][k := ka]];
      forall k' | k' in addrIndex ensures addrIndex[k'].View() == book.index[k'] && addrIndex[k'].na.key == k' {
        if k' != k { assert old(addrIndex[k'].View()) == addrIndex[k'].View(); }
      }
    }

    /** The first half of an announcement: refresh a known address or index a new one. */
    method See(na: NetAddress, src: NetAddress)
      requires Tied()
      modifies this`addrIndex, this`nNew, this`book, addrIndex.Values`na
      ensures Tied() && book == Seen(old(book), na, src) && na.key in addrIndex
      ensures fresh(addrIndex.Values - old(addrIndex.Values))
    {
      hide Tied, BucketsShow, ListsShow, Refreshed;
      TiedIndex(this);
      if na.key in addrIndex {
        Refresh(na);
      } else {
        UnknownUnlisted(this, na.key);
        Index(na, src);
      }
    }

    /** A known address takes the announced time and services if either is news. */
    method Refresh(na: NetAddress)
      requires Tied() && na.key in addrIndex
      modifies this`book, {addrIndex[na.key]}`na
      ensures na.key in old(book).index
      ensures Tied() && book == old(book).Touch(na.key, Refreshed(old(book).index[na.key], na))
    {
      hide BucketsShow, ListsShow;
      var k := na.key;
      var ka := addrIndex[k];
      book := book.Touch(k, Refreshed(book.index[k], na));
      if na.timestamp > ka.na.timestamp || !(na.services <= ka.na.services) {
        ka.na := ka.na.(timestamp := na.timestamp, services := ka.na.services + na.services);
      }
      forall k' | k' in addrIndex ensures addrIndex[k'].View() == book.index[k'] && addrIndex[k'].na.key == k' {
        if k' != k { assert old(addrIndex[k'].View()) == addrIndex[k'].View(); }
      }
    }

    /** A new address is indexed and counted. */
    method Index(na: NetAddress, src: NetAddress)
      requires Tied() && na.key !in addrIndex && book.Unlisted(na.key)
      modifies this`addrIndex, this`nNew, this`book
      ensures Tied() && book == old(book).Admit(na, src) && na.key in addrIndex
      ensures fresh(addrIndex.Values - old(addrIndex.Values))
    {
      hide BucketsShow, ListsShow;
      var k := na.key;
      var ka := new KnownAddress(na, src);
      ShowAdmit(this, k, ka);
      book := book.Admit(na, src);
      addrIndex := addrIndex[k := ka];
      nNew := nNew + 1;
      forall k' | k' in addrIndex ensures addrIndex[k'].View() == book.index[k'] && addrIndex[k'].na.key == k' {
        if k' != k { assert old(addrIndex[k'].View()) == addrIndex[k'].View(); }
      }
    }

    /** The second half of an announcement: enter the bucket, making room first. */
    method Spread(bucket: nat, k: Key, now: int, ghost pending: set<Key>)
      requires Tied() && book.Inv(hashes, pending) && bucket < |addrNew| && k in addrIndex && pending <= {k}
      requires k in pending ==> k !in addrNew[bucket]
      modifies this, addrIndex.Values`refs
      ensures bucket < |old(book).news| && k in old(book).index && SpreadStep(old(book), bucket, k, now, book)
      ensures Tied() && addrIndex.Values <= old(addrIndex.Values)
    {
      hide Tied, Book.Inv, BucketsShow, ListsShow, Book.Drop, Book.Place, Expires;
      ghost var b := book;
      TiedIndex(this);
      TiedBucket(this, bucket);
      if k in addrNew[bucket] { return; }
      if |addrNew[bucket]| > NEW_BUCKET_SIZE {
        ghost var gone := ExpireNew(bucket, now, pending);
        ExpiryMakesRoom(b, hashes, bucket, gone, now, k, pending);
        TiedIndex(this);
        assert ExpiredAndPlaced(b, bucket, gone, now, k, book.Place(bucket, k));
      }
      Link(bucket, k);
    }

    /** An announcement of `na` by `src`.  A known address has its services joined, and takes the
        announced time if that is later or a service is new. */
    method UpdateAddress(na: NetAddress, src: NetAddress, routable: bool, skip: bool, now: int)
      requires Valid()
      modifies this, addrIndex.Values`na, addrIndex.Values`refs
      ensures Valid() && old(book).Shaped()
      ensures if routable then AddStep(old(book), hashes, na, src, skip, now, book) else book == old(book)
      ensures fresh(addrIndex.Values - old(addrIndex.Values))
      ensures routable ==> na.key in addrIndex
      ensures routable && na.key in old(addrIndex) ==>
                && addrIndex[na.key].na.services == old(addrIndex[na.key].na.services) + na.services
                && addrIndex[na.key].na.timestamp
                   == (if na.timestamp > old(addrIndex[na.key].na.timestamp) || !(na.services <= old(addrIndex[na.key].na.services))
                       then na.timestamp else old(addrIndex[na.key].na.timestamp))
      ensures routable && na.key !in old(addrIndex) ==> addrIndex[na.key].na == na && addrIndex[na.key].srcAddr == src
    {
      hide Tied, Book.Inv, BucketsShow, ListsShow, AddStep;
      ghost var b := book;
      TiedIndex(this);
      if na.key in addrIndex { TiedKey(this, na.key); }
      Announce(na, src, routable, skip, now);
      TiedIndex(this);
      if routable {
        if na.key in b.index {
          AnnouncedKnown(b, hashes, na, src, skip, now, book);
        } else {
          AnnouncedNew(b, hashes, na, src, skip, now, book);
        }
        TiedKey(this, na.key);
      }
    }

    method Announce(na: NetAddress, src: NetAddress, routable: bool, skip: bool, now: int)
      requires Valid()
      modifies this, addrIndex.Values`na, addrIndex.Values`refs
      ensures Valid() && old(book).Shaped()
      ensures if routable then AddStep(old(book), hashes, na, src, skip, now, book) else book == old(book)
      ensures fresh(addrIndex.Values - old(addrIndex.Values))
    {
      hide Tied, Book.Inv, BucketsShow, ListsShow, SpreadStep, Seen;
      ghost var b := book;
      InvShape(b, hashes, {});
      TiedIndex(this);
      if !routable { return; }
      SeenKeepsInv(b, hashes, na, src);
      var k, known := na.key, na.key in addrIndex;
      ghost var pending := if known then {} else {k};
      See(na, src);
      InvShape(book, hashes, pending);
      TiedIndex(this);
      TiedKey(this, k);
      if known && (addrIndex[k].tried || addrIndex[k].refs == NEW_BUCKETS_PER_ADDRESS || skip) {
        AddStepKeepsInv(b, hashes, na, src, skip, now, book);
        return;
      }
      var bucket := hashes.NewBucket(na, src);
      TiedBucket(this, bucket);
      Spread(bucket, k, now, pending);
      AddStepKeepsInv(b, hashes, na, src, skip, now, book);
    }

    /** Removes `k` from every new bucket; `first` is the first one that held it. */
    method WithdrawAll(k: Key) returns (first: int)
      requires Tied() && k in addrIndex
      modifies this`addrNew, this`book, {addrIndex[k]}`refs
      ensures Tied() && k in old(book).index && book == old(book).Withdraw(k, |old(book).news|)
      ensures if first == -1 then forall i | 0 <= i < |old(book).news| :: k !in old(book).news[i]
              else first >= 0 && FirstHolder(old(book).news, k, first)
    {
      hide Tied, BucketsShow, ListsShow, Book.Withdraw, Book.Unlink;
      TiedIndex(this);
      TiedKey(this, k);
      ghost var b := book;
      WithdrawEnds(b, k);
      first := -1;
      var i, n := 0, |addrNew|;
      while i < n
        invariant 0 <= i <= n == |b.news|
        invariant Tied() && book == b.Withdraw(k, i)
        invariant if first == -1 then forall j | 0 <= j < i :: k !in b.news[j]
                  else 0 <= first < i && FirstHolder(b.news, k, first)
      {
        WithdrawNext(b, k, i);
        TiedIndex(this);
        TiedBucket(this, i);
        if k in addrNew[i] {
          Unlink(i, k);
          if first == -1 { first := i; }
        }
        i := i + 1;
      }
    }

    /** Appends a withdrawn address to a tried list and counts it there. */
    method PushTried(bucket: nat, k: Key)
      requires Tied() && bucket < |addrTried| && k in addrIndex
      modifies this`addrTried, this`book, this`nTried, {addrIndex[k]}`tried
      ensures k in old(book).index && bucket < |old(book).tried|
      ensures Tied() && book == old(book).Push(k, bucket) && |addrTried| == old(|addrTried|)
    {
      hide BucketsShow, ListsShow;
      TiedIndex(this);
      ShowPush(addrTried, book.tried, addrIndex, bucket, k);
      var ka := addrIndex[k];
      book := book.Push(k, bucket);
      ka.tried := true;
      addrTried := addrTried[bucket := addrTried[bucket] + [ka]];
      nTried := nTried + 1;
      forall k' | k' in addrIndex ensures addrIndex[k'].View() == book.index[k'] && addrIndex[k'].na.key == k' {
        if k' != k { assert old(addrIndex[k'].View()) == addrIndex[k'].View(); }
      }
    }

    /** Puts an address in the place of another in a tried list; the other one is new again. */
    method SwapTried(bucket: nat, p: nat, k: Key)
      requires Tied() && bucket < |addrTried| && p < |addrTried[bucket]| && k in addrIndex
      modifies this`addrTried, this`book, this`nNew, addrIndex.Values`tried
      ensures k in old(book).index && bucket < |old(book).tried| && p < |old(book).tried[bucket]|
      ensures old(book).tried[bucket][p] in old(book).index
      ensures Tied() && book == old(book).Swap(k, bucket, p)
    {
      hide BucketsShow, ListsShow;
      TiedIndex(this);
      TiedList(this, bucket);
      ShowSwap(addrTried, book.tried, addrIndex, bucket, p, k);
      var ka, rmka := addrIndex[k], addrTried[bucket][p];
      book := book.Swap(k, bucket, p);
      ka.tried := true;
      addrTried := addrTried[bucket := addrTried[bucket][p := ka]];
      rmka.tried := false;
      nNew := nNew + 1;
      forall k' | k' in addrIndex ensures addrIndex[k'].View() == book.index[k'] && addrIndex[k'].na.key == k' {
        if addrIndex[k'] != ka && addrIndex[k'] != rmka { assert old(addrIndex[k'].View()) == addrIndex[k'].View(); }
      }
    }

    /** The position of the first of the oldest addresses in a tried list. */
    method PickTried(bucket: nat) returns (p: int)
      requires Tied() && bucket < |addrTried|
      ensures if addrTried[bucket] == [] then p == -1
              else 0 <= p && FirstOldest(book, book.tried[bucket], p)
    {
      p := -1;
      var i := 0;
      while i < |addrTried[bucket]|
        invariant 0 <= i <= |addrTried[bucket]|
        invariant if i == 0 then p == -1 else 0 <= p < i
        invariant forall j | 0 <= j < i && j < p :: addrTried[bucket][p].na.timestamp < addrTried[bucket][j].na.timestamp
        invariant forall j | 0 <= p <= j < i :: addrTried[bucket][p].na.timestamp <= addrTried[bucket][j].na.timestamp
      {
        if p == -1 || addrTried[bucket][p].na.timestamp > addrTried[bucket][i].na.timestamp {
          p := i;
        }
        i := i + 1;
      }
    }

    /** A successful connection to the address with key `k`, which becomes tried and stamped. */
    method Good(k: Key, now: int)
      requires Valid()
      modifies this, addrIndex.Values
      ensures Valid() && old(book).Shaped() && GoodStep(old(book), hashes, k, now, book)
      ensures addrIndex == old(addrIndex)
      ensures k in addrIndex ==>
                && addrIndex[k].tried && addrIndex[k].attempts == 0 && addrIndex[k].lastAttempt == addrIndex[k].lastSuccess == now
                && addrIndex[k].na == old(addrIndex[k].na) && addrIndex[k].srcAddr == old(addrIndex[k].srcAddr)
    {
      hide Tied, Book.Inv, BucketsShow, ListsShow, GoodStep;
      ghost var b := book;
      TiedIndex(this);
      if k in addrIndex { TiedKey(this, k); }
      Succeed(k, now);
      if k in addrIndex {
        Succeeded(b, hashes, k, now, book);
        TiedKey(this, k);
      }
    }

    method Succeed(k: Key, now: int)
      requires Valid()
      modifies this, addrIndex.Values
      ensures Valid() && old(book).Shaped() && GoodStep(old(book), hashes, k, now, book)
      ensures addrIndex == old(addrIndex)
    {
      hide Tied, Book.Inv, BucketsShow, ListsShow, Book.Withdraw, Book.Push, Book.Swap, Book.Place, Evicted;
      ghost var b := book;
      InvShape(b, hashes, {});
      TiedIndex(this);
      if k !in addrIndex { return; }
      IndexKey(b, hashes, k);
      var ka := addrIndex[k];
      Stamp(k, now);
      TiedKey(this, k);
      if ka.tried {
        GoodStepKeepsInv(b, hashes, k, now, book);
        return;
      }
      TouchKeepsInv(b, hashes, k, Stamped(b.index[k], now), {});
      MoveToTried(k);
      GoodStepKeepsInv(b, hashes, k, now, book);
    }

    method Stamp(k: Key, now: int)
      requires Tied() && k in addrIndex
      modifies this`book, addrIndex[k]
      ensures k in old(book).index && Tied() && book == old(book).Touch(k, Stamped(old(book).index[k], now))
    {
      hide BucketsShow, ListsShow;
      var ka := addrIndex[k];
      book := book.Touch(k, Stamped(book.index[k], now));
      ka.lastSuccess, ka.lastAttempt, ka.attempts := now, now, 0;
      forall k' | k' in addrIndex ensures addrIndex[k'].View() == book.index[k'] && addrIndex[k'].na.key == k' {
        if k' != k { assert old(addrIndex[k'].View()) == addrIndex[k'].View(); }
      }
    }

    /** Removes an untried address from the new buckets and appends it to its
        tried list, or exchanges it for the oldest address of a full list. */
    method MoveToTried(k: Key)
      requires Valid() && k in book.NewKeys()
      modifies this`addrNew, this`addrTried, this`book, this`nNew, this`nTried, addrIndex.Values`refs, addrIndex.Values`tried
      ensures Tied() && old(book).Shaped()
      ensures if |old(book).tried[hashes.TriedBucket(k)]| < TRIED_BUCKET_SIZE
              then book == old(book).Promote(k, hashes.TriedBucket(k))
              else exists p: nat, left: nat :: Evicted(old(book), hashes, k, p, left, book)
    {
      hide Tied, Book.Inv, BucketsShow, ListsShow, Book.Withdraw, Book.Push, Book.Swap, Book.Place, Evicted;
      ghost var b := book;
      InvShape(b, hashes, {});
      TiedIndex(this);
      LeaveShape(b, hashes, k);
      NewHasHolder(b, hashes, k);
      var first := WithdrawAll(k);
      Uncount();
      TiedIndex(this);
      if first == -1 { return; }
      var bucket := hashes.TriedBucket(k);
      TiedList(this, bucket);
      if |addrTried[bucket]| < TRIED_BUCKET_SIZE {
        PushTried(bucket, k);
        return;
      }
      Evict(b, k, first);
    }

    method Uncount()
      requires Tied()
      modifies this`nNew, this`book
      ensures Tied() && book == old(book).(nNew := old(book).nNew - 1)
    {
      nNew := nNew - 1;
      book := book.(nNew := book.nNew - 1);
    }

    /** Puts `k`, just taken out of the new buckets, in the place of the oldest
        address of its full tried list, and that address into a new bucket. */
    method Evict(ghost b: Book, k: Key, first: nat)
      requires Tied() && k in b.index && b.Shaped() && |b.tried[hashes.TriedBucket(k)]| >= TRIED_BUCKET_SIZE
      requires book == b.Leave(k) && FirstHolder(b.news, k, first)
      requires book.news == Without(b.news, k) && book.tried == b.tried && book.index == b.index[k := b.index[k].(refs := 0)]
      modifies this`addrNew, this`addrTried, this`book, this`nNew, addrIndex.Values`refs, addrIndex.Values`tried
      ensures Tied() && exists p: nat :: Evicted(b, hashes, k, p, first, book)
    {
      hide Tied, BucketsShow, ListsShow, Book.Leave, Book.Swap, Book.Place, FirstOldest;
      TiedIndex(this);
      var bucket := hashes.TriedBucket(k);
      TiedList(this, bucket);
      var p := PickTried(bucket);
      SameOldest(book, b, k, bucket, p);
      var rmka := addrTried[bucket][p];
      var rmkey := rmka.na.key;
      var newBucket := hashes.NewBucket(rmka.na, rmka.srcAddr);
      TiedKey(this, book.tried[bucket][p]);
      TiedBucket(this, newBucket);
      if |addrNew[newBucket]| >= NEW_BUCKET_SIZE { newBucket := first; }
      SwapTried(bucket, p, k);
      TiedIndex(this);
      Link(newBucket, rmkey);
      assert Evicted(b, hashes, k, p, first, book);
    }

    method NumAddresses() returns (n: int)
      requires Valid()
      ensures n == |addrIndex| && n == nTried + nNew
    {
      CountersAgree(book, hashes);
      assert addrIndex.Keys == book.index.Keys;
      n := nTried + nNew;
    }

    /** The tables an address is drawn from: the tried lists if only they have any, or if the coin says so. */
    predicate FromTried(coin: bool)
      reads this
    {
      nTried > 0 && (nNew == 0 || coin)
    }

    /** Draws until an address is accepted: the one that the first hit names. */
    method GetAddress(coin: bool, draws: seq<Draw>) returns (ka: KnownAddress?)
      requires Valid()
      ensures var at := FirstHit(book, draws, FromTried(coin), 1.0);
              && (ka == null <==> at == |draws|)
              && (ka != null ==> var k := Picked(book, draws[at], FromTried(coin)).value;
                                 k in addrIndex && ka == addrIndex[k] && (ka.tried <==> FromTried(coin)))
      ensures ka != null ==>
                && (nTried == 0 ==> !ka.tried) && (nNew == 0 ==> ka.tried) && (nTried > 0 && nNew > 0 ==> (ka.tried <==> coin))
    {
      hide Book.Inv, BucketsShow, ListsShow, IndexTied, Picked, Accepts, FirstHit;
      var n := NumAddresses();
      TiedIndex(this);
      if n == 0 {
        NothingPicked(book, draws, FromTried(coin), 1.0);
        return null;
      }
      var i, factor := 0, 1.0;
      ghost var at := FirstHit(book, draws, FromTried(coin), 1.0);
      assert draws[0..] == draws;
      while i < |draws|
        invariant 0 <= i <= |draws| && at == i + FirstHit(book, draws[i..], FromTried(coin), factor)
      {
        ka := Pick(draws[i], FromTried(coin));
        HitStep(book, draws, i, FromTried(coin), factor);
        if ka != null {
          var taken := ka.Taken(draws[i], factor);
          if taken { return; }
          factor := factor * 1.2;
        }
        i := i + 1;
      }
      return null;
    }

    /** The address that one draw names. */
    method Pick(d: Draw, fromTried: bool) returns (ka: KnownAddress?)
      requires Valid()
      ensures ka == null <==> Picked(book, d, fromTried).None?
      ensures ka != null ==> var k := Picked(book, d, fromTried).value;
                             k in addrIndex && ka == addrIndex[k] && ka.View() == book.index[k] && (ka.tried <==> fromTried)
    {
      hide Book.Inv, BucketsShow, ListsShow;
      ka := null;
      if fromTried {
        if d.bucket < |addrTried| && addrTried[d.bucket] != [] {
          TiedList(this, d.bucket);
          var i := d.pick % |addrTried[d.bucket]|;
          ka := addrTried[d.bucket][i];
          ListedIsTried(book, hashes, d.bucket, i);
          TiedKey(this, book.tried[d.bucket][i]);
        } else {
          TiedIndex(this);
          if d.bucket < |addrTried| { TiedList(this, d.bucket); }
        }
      } else if d.bucket < |addrNew| && d.key in addrNew[d.bucket] {
        TiedBucket(this, d.bucket);
        TiedEntry(this, d.bucket, d.key);
        BucketedIsNew(book, hashes, d.bucket, d.key);
        ka := addrNew[d.bucket][d.key];
      } else {
        TiedIndex(this);
        if d.bucket < |addrNew| { TiedBucket(this, d.bucket); }
      }
    }

    /** Whenever an address is known there is a draw that names one. */
    lemma SomethingToDraw(coin: bool)
      requires Valid() && addrIndex != map[]
      ensures exists d: Draw :: Picked(book, d, FromTried(coin)).Some?
    {
      hide Book.Inv, BucketsShow, ListsShow;
      CountersAgree(book, hashes);
      TiedIndex(this);
      var any: Key :| any in addrIndex;
      if FromTried(coin) {
        var c: nat :| c < |book.tried| && book.tried[c] != [];
        TiedLists(this, c);
        TiedList(this, c);
        assert Picked(book, Draw(c, 0, any, 0, 0), true).Some?;
      } else {
        var c: nat :| c < |book.news| && book.news[c] != {};
        var k :| k in book.news[c];
        TiedEntry(this, c, k);
        assert Picked(book, Draw(c, 0, k, 0, 0), false).Some?;
      }
    }

    /** Empties the storage but leaves the counters as they were. */
    method Reset()
      requires Valid()
      modifies this`addrIndex, this`addrNew, this`addrTried, this`book
      ensures Tied() && book == Cleared(old(book))
      ensures Valid() <==> old(addrIndex) == map[]
    {
      hide Book.Inv;
      ResetIff(book, hashes);
      assert addrIndex.Keys == book.index.Keys;
      addrIndex := map[];
      addrNew := seq(NEW_BUCKET_COUNT, _ => map[]);
      addrTried := seq(TRIED_BUCKET_COUNT, _ => []);
      book := Cleared(book);
    }

    /** The serialisable picture of the manager. */
    method SavePeers() returns (saved: Saved)
      requires Tied()
      ensures Saves(book, hashes, saved)
    {
      hide Lists, BucketsShow, ListsShow;
      TiedIndex(this);
      var addresses := SaveAddresses();
      var newBuckets, i := [], 0;
      while i < |addrNew|
        invariant 0 <= i <= |addrNew| && |newBuckets| == i
        invariant forall j | 0 <= j < i :: Lists(newBuckets[j], book.news[j])
      {
        TiedBucket(this, i);
        var keys := EachOnce(addrNew[i].Keys);
        newBuckets := newBuckets + [keys];
        i := i + 1;
      }
      var triedBuckets, c := [], 0;
      while c < |addrTried|
        invariant 0 <= c <= |addrTried| && triedBuckets == book.tried[..c]
      {
        TiedList(this, c);
        var keys, e := [], 0;
        while e < |addrTried[c]|
          invariant 0 <= e <= |addrTried[c]| && keys == book.tried[c][..e]
        {
          keys := keys + [addrTried[c][e].na.key];
          e := e + 1;
        }
        assert keys == book.tried[c];
        assert book.tried[..c + 1] == book.tried[..c] + [book.tried[c]];
        triedBuckets := triedBuckets + [keys];
        c := c + 1;
      }
      saved := Saved(SERIALISATION_VERSION, hashes, addresses, newBuckets, triedBuckets);
    }

    method LoadAddresses(saved: Saved, parse: Parser, ghost b: Book) returns (ok: bool)
      requires Tied() && Fresh(book) && addrIndex == map[]
      modifies this`addrIndex, this`book
      ensures Tied() && fresh(addrIndex.Values)
      ensures book == old(book).(index := book.index)
      ensures forall k | k in book.index :: book.index[k].refs == 0 && !book.index[k].tried
      ensures b.Inv(saved.hashes) && Saves(b, saved.hashes, saved) && Parses(parse, b) ==> ok && BaseOf(b, book.index)
    {
      hide Tied, Saves, Book.Inv, SameEntry, Parses;
      ghost var wf := b.Inv(saved.hashes) && Saves(b, saved.hashes, saved) && Parses(parse, b);
      ghost var b0 := book;
      var j := 0;
      while j < |saved.addresses|
        invariant 0 <= j <= |saved.addresses|
        invariant Tied() && fresh(addrIndex.Values) && book == b0.(index := book.index)
        invariant forall k | k in book.index :: book.index[k].refs == 0 && !book.index[k].tried
        invariant wf ==> book.index.Keys <= b.index.Keys
        invariant wf ==> forall k | k in book.index :: SameEntry(b.index[k].(refs := 0, tried := false), book.index[k])
        invariant wf ==> forall i | 0 <= i < j :: saved.addresses[i].addr in book.index
      {
        var v := saved.addresses[j];
        if wf {
          ParsedAt(b, saved, parse, j);
          IndexKey(b, saved.hashes, v.addr);
        }
        var na, src := parse(v.addr), parse(v.src);
        if na.None? || src.None? { return false; }
        FreshUnlisted(b0, na.value.key);
        IndexLoaded(na.value, src.value, v.attempts, v.lastAttempt, v.lastSuccess);
        j := j + 1;
      }
      if wf {
        forall k | k in b.index ensures k in book.index {
          SavedAll(b, saved.hashes, saved, k);
        }
      }
      return true;
    }

    method IndexLoaded(na: NetAddress, src: NetAddress, attempts: int, lastAttempt: int, lastSuccess: int)
      requires Tied() && book.Unlisted(na.key)
      modifies this`addrIndex, this`book
      ensures Tied() && book == old(book).Touch(na.key, Entry(na, src, attempts, lastAttempt, lastSuccess, false, 0))
      ensures fresh(addrIndex.Values - old(addrIndex).Values)
    {
      hide BucketsShow, ListsShow;
      var ka := new KnownAddress(na, src);
      ka.attempts, ka.lastAttempt, ka.lastSuccess := attempts, lastAttempt, lastSuccess;
      ShowAdmit(this, na.key, ka);
      book := book.Touch(na.key, ka.View());
      addrIndex := addrIndex[na.key := ka];
      forall k' | k' in addrIndex ensures addrIndex[k'].View() == book.index[k'] && addrIndex[k'].na.key == k' {
        if k' != na.key { assert old(addrIndex[k'].View()) == addrIndex[k'].View(); }
      }
    }

    method LoadBucket(i: nat, list: seq<Key>, ghost base: map<Key, Entry>, ghost news: seq<set<Key>>, ghost tried: seq<seq<Key>>,
                      ghost s: set<Key>) returns (ok: bool)
      requires Tied() && i < |addrNew|
      modifies this`addrNew, this`book, this`nNew, addrIndex.Values`refs
      ensures Tied() && |addrNew| == old(|addrNew|)
      ensures |news| == |addrNew| && old(book) == Derived(base, news, tried) && news[i] == {} && Lists(list, s) && s <= base.Keys ==>
                ok && book == Derived(base, news[i := s], tried)
    {
      hide Tied, BucketsShow, ListsShow, Derived, Book.Place;
      TiedIndex(this);
      ghost var wf := |news| == |addrNew| && book == Derived(base, news, tried) && news[i] == {} && Lists(list, s) && s <= base.Keys;
      assert wf ==> news[i := {}] == news;
      ghost var part: set<Key> := {};
      var j := 0;
      while j < |list|
        invariant 0 <= j <= |list| && part == Elems(list[..j])
        invariant Tied() && i < |addrNew| == old(|addrNew|)
        invariant wf ==> book == Derived(base, news[i := part], tried)
      {
        var k := list[j];
        TiedIndex(this);
        if wf {
          DerivedKeys(base, news[i := part], tried);
          assert k in s;
          assert k !in part;
          DeriveNew(base, news[i := part], tried, i, k);
          assert news[i := part][i := part + {k}] == news[i := part + {k}];
        }
        if k !in addrIndex { return false; }
        TiedKey(this, k);
        if addrIndex[k].refs == 0 { CountNew(); }
        Link(i, k);
        part := part + {k};
        j := j + 1;
      }
      if wf {
        assert list[..|list|] == list;
        assert part == s;
      }
      return true;
    }

    method CountNew()
      requires Tied()
      modifies this`nNew, this`book
      ensures Tied() && book == old(book).(nNew := old(book).nNew + 1)
    {
      nNew := nNew + 1;
      book := book.(nNew := book.nNew + 1);
    }

    method LoadNew(saved: Saved, ghost b: Book, ghost base: map<Key, Entry>, ghost tried: seq<seq<Key>>) returns (ok: bool)
      requires Tied() && |addrNew| == |saved.newBuckets|
      modifies this`addrNew, this`book, this`nNew, addrIndex.Values`refs
      ensures Tied()
      ensures |saved.newBuckets| == |b.news| && old(book) == Derived(base, First(b.news, 0, {}), tried) && NewListed(saved, b, base) ==>
                ok && book == Derived(base, b.news, tried)
    {
      hide Tied, BucketsShow, ListsShow, Derived, First, Lists;
      TiedIndex(this);
      ghost var wf := |saved.newBuckets| == |b.news| && book == Derived(base, First(b.news, 0, {}), tried) && NewListed(saved, b, base);
      var i := 0;
      while i < |saved.newBuckets|
        invariant 0 <= i <= |saved.newBuckets| == |addrNew|
        invariant Tied() && (wf ==> book == Derived(base, First(b.news, i, {}), tried))
      {
        if wf { FirstNext(b.news, i, {}); }
        ok := LoadBucket(i, saved.newBuckets[i], base, if wf then First(b.news, i, {}) else [], tried, if wf then b.news[i] else {});
        if !ok { return; }
        i := i + 1;
      }
      if wf { FirstAll(b.news, {}); }
      return true;
    }

    method LoadList(c: nat, list: seq<Key>, ghost base: map<Key, Entry>, ghost news: seq<set<Key>>, ghost tried: seq<seq<Key>>)
      returns (ok: bool)
      requires Tied() && c < |addrTried|
      modifies this`addrTried, this`book, this`nTried, addrIndex.Values`tried
      ensures Tied() && |addrTried| == old(|addrTried|)
      ensures |tried| == |addrTried| && old(book) == Derived(base, news, tried) && Appendable(base, tried, c, list) ==>
                ok && book == Derived(base, news, tried[c := list])
    {
      hide Tied, BucketsShow, ListsShow, Derived, Book.Push, InLists;
      TiedIndex(this);
      ghost var wf := |tried| == |addrTried| && book == Derived(base, news, tried) && Appendable(base, tried, c, list);
      assert wf ==> tried[c := list[..0]] == tried;
      var j := 0;
      while j < |list|
        invariant 0 <= j <= |list|
        invariant Tied() && c < |addrTried| == old(|addrTried|)
        invariant wf ==> book == Derived(base, news, tried[c := list[..j]])
      {
        var k := list[j];
        TiedIndex(this);
        if wf {
          DerivedKeys(base, news, tried[c := list[..j]]);
          NotYetListed(base, tried, c, list, j);
          DeriveTried(base, news, tried[c := list[..j]], c, k);
          assert list[..j] + [k] == list[..j + 1];
          assert tried[c := list[..j]][c := list[..j + 1]] == tried[c := list[..j + 1]];
        }
        if k !in addrIndex { return false; }
        PushTried(c, k);
        j := j + 1;
      }
      assert list[..|list|] == list;
      return true;
    }

    method LoadTried(saved: Saved, ghost b: Book, ghost base: map<Key, Entry>) returns (ok: bool)
      requires Tied() && |addrTried| == |saved.triedBuckets|
      modifies this`addrTried, this`book, this`nTried, addrIndex.Values`tried
      ensures Tied()
      ensures saved.triedBuckets == b.tried && old(book) == Derived(base, b.news, First(b.tried, 0, [])) &&
              ListsOf(b.tried, b.TriedKeys(), hashes) && b.TriedKeys() <= base.Keys ==>
                ok && book == Derived(base, b.news, b.tried)
    {
      hide Tied, BucketsShow, ListsShow, Derived, First, ListsOf;
      TiedIndex(this);
      ghost var wf := saved.triedBuckets == b.tried && book == Derived(base, b.news, First(b.tried, 0, [])) &&
                      ListsOf(b.tried, b.TriedKeys(), hashes) && b.TriedKeys() <= base.Keys;
      var c := 0;
      while c < |saved.triedBuckets|
        invariant 0 <= c <= |saved.triedBuckets| == |addrTried|
        invariant Tied() && (wf ==> book == Derived(base, b.news, First(b.tried, c, [])))
      {
        if wf {
          FirstNext(b.tried, c, []);
          FirstAppendable(b, base, hashes, c);
        }
        ok := LoadList(c, saved.triedBuckets[c], base, b.news, if wf then First(b.tried, c, []) else []);
        if !ok { return; }
        c := c + 1;
      }
      if wf { FirstAll(b.tried, []); }
      return true;
    }

    /** Every address is in some bucket or in some tried list, and not in both. */
    method Sane() returns (ok: bool)
      requires Tied()
      ensures ok <==> SaneBook(book)
    {
      hide BucketsShow, ListsShow;
      var todo := addrIndex.Keys;
      while todo != {}
        invariant todo <= addrIndex.Keys
        invariant forall k | k in addrIndex.Keys - todo :: SaneEntry(book.index[k])
        decreases todo
      {
        var k :| k in todo;
        todo := todo - {k};
        var v := addrIndex[k];
        TiedKey(this, k);
        if v.refs == 0 && !v.tried { return false; }
        if v.refs > 0 && v.tried { return false; }
      }
      return true;
    }

    method SaveAddresses() returns (addresses: seq<SavedAddress>)
      requires Tied()
      ensures Lists(addresses, SavedEntries(book.index, book.index.Keys))
    {
      hide Lists, BucketsShow, ListsShow, SavedEntries;
      addresses := [];
      var todo := addrIndex.Keys;
      ghost var done: set<Key> := {};
      SaveNone(book.index);
      while todo != {}
        invariant done + todo == book.index.Keys && done !! todo
        invariant Lists(addresses, SavedEntries(book.index, done))
        decreases todo
      {
        var k :| k in todo;
        TiedKey(this, k);
        SaveOne(addresses, book.index, done, k);
        var v := addrIndex[k];
        addresses := addresses + [SavedAddress(k, v.srcAddr.key, v.attempts, v.na.timestamp, v.lastAttempt, v.lastSuccess)];
        todo, done := todo - {k}, done + {k};
      }
    }
  }

  /** Reading the peers file into a fresh manager.  Whatever consistent state `b`
      was saved, it is rebuilt up to the addresses' time stamps and services. */
  method LoadPeers(saved: Saved, parse: Parser, ghost b: Book) returns (m: AddrManager, ok: bool)
    requires |saved.newBuckets| == NEW_BUCKET_COUNT && |saved.triedBuckets| == TRIED_BUCKET_COUNT
    ensures fresh(m) && m.hashes == saved.hashes && m.Tied()
    ensures ok ==> saved.version == SERIALISATION_VERSION && SaneBook(m.book)
    ensures b.Inv(saved.hashes) && Saves(b, saved.hashes, saved) && Parses(parse, b) ==> ok && SameBook(b, m.book) && m.Valid()
  {
    hide Book.Inv, Saves, Parses, BaseOf, Derived, SameBook, First, ListsOf, SaneBook;
    m := new AddrManager(saved.hashes);
    ghost var wf := b.Inv(saved.hashes) && Saves(b, saved.hashes, saved) && Parses(parse, b);
    if saved.version != SERIALISATION_VERSION {
      if wf { SavedShape(b, saved); }
      return m, false;
    }
    ghost var b0 := m.book;
    TiedIndex(m);
    ok := m.LoadAddresses(saved, parse, b);
    if !ok { return; }
    ghost var base := m.book.index;
    TiedIndex(m);
    if wf { StartDerived(b, saved, base, b0); }
    ok := m.LoadNew(saved, b, base, b0.tried);
    if !ok { return; }
    TiedIndex(m);
    ok := m.LoadTried(saved, b, base);
    if !ok { return; }
    ok := m.Sane();
    if wf {
      LoadedIsSaved(b, saved.hashes, saved, base);
      LoadedIsSane(b, saved.hashes, m.book);
    }
  }

  /** Saving a consistent manager and loading the file again. */
  method Restart(m: AddrManager, parse: Parser) returns (m': AddrManager)
    requires m.Valid() && Parses(parse, m.book)
    ensures m'.Valid() && SameBook(m.book, m'.book) && m'.hashes == m.hashes && SaneBook(m'.book)
  {
    hide Book.Inv, Parses, SameBook, SaneBook, BucketsShow, ListsShow;
    InvShape(m.book, m.hashes, {});
    var saved := m.SavePeers();
    var ok;
    m', ok := LoadPeers(saved, parse, m.book);
  }

  method EachOnce(s: set<Key>) returns (list: seq<Key>)
    ensures Lists(list, s)
  {
    hide Lists;
    var todo := s;
    list := [];
    ghost var done: set<Key> := {};
    assert Lists(list, done) by { ListsNothing<Key>(); }
    while todo != {}
      invariant done + todo == s && done !! todo && Lists(list, done)
      decreases todo
    {
      var k :| k in todo;
      ListsOneMore(list, done, k);
      list := list + [k];
      todo, done := todo - {k}, done + {k};
    }
  }
}