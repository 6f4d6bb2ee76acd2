/** What an announcement and a success do to the entries, the buckets and the lists, said of
    the two states directly. */
module AddrEffects {
  import opened AddrBook

  /** Apart from its reference count and its flag an entry is the same. */
  ghost predicate SameAddress(e: Entry, e': Entry) {
    && e'.na == e.na && e'.src == e.src
    && e'.attempts == e.attempts && e'.lastAttempt == e.lastAttempt && e'.lastSuccess == e.lastSuccess
  }

  /** An announcement of a known address: its services are joined with the announced ones, and the
      announced time is taken if it is later or a service is new.  Nothing else changes in this
      entry but the count, and nothing but the count in any other. */
  lemma AnnouncedKnown(b: Book, h: Hashes, na: NetAddress, src: NetAddress, skip: bool, now: int, b': Book)
    requires b.Inv(h) && b.Shaped() && AddStep(b, h, na, src, skip, now, b') && na.key in b.index
    ensures na.key in b'.index
    ensures var e, e' := b.index[na.key], b'.index[na.key];
            && e'.na.key == na.key && e'.na.services == e.na.services + na.services
            && e'.na.timestamp == (if na.timestamp > e.na.timestamp || (exists s :: s in na.services && s !in e.na.services)
                                   then na.timestamp else e.na.timestamp)
            && e'.src == e.src && e'.attempts == e.attempts && e'.tried == e.tried
            && e'.lastAttempt == e.lastAttempt && e'.lastSuccess == e.lastSuccess
    ensures OthersKept(b, b', na.key)
  {
    hide ListsOf, BucketsOf, Book.Inv, IsBad, Expires;
    IndexKey(b, h, na.key);
    var b1, i := Seen(b, na, src), h.NewBucket(na, src);
    assert SameAddress(b1.index[na.key], b'.index[na.key]) && b1.index[na.key].tried == b'.index[na.key].tried
           && OthersKept(b1, b', na.key) by {
      hide Seen;
      if !(b.index[na.key].tried || b.index[na.key].refs == NEW_BUCKETS_PER_ADDRESS || skip) { Spread(b1, i, na.key, now, b'); }
    }
  }

  /** The addresses other than `k` that are still known have kept everything but their count. */
  ghost predicate OthersKept(b: Book, b': Book, k: Key) {
    forall k' | k' in b'.index && k' != k ::
      k' in b.index && SameAddress(b.index[k'], b'.index[k']) && b'.index[k'].tried == b.index[k'].tried
  }

  lemma Spread(b: Book, i: nat, k: Key, now: int, b': Book)
    requires i < |b.news| && k in b.index && SpreadStep(b, i, k, now, b')
    ensures k in b'.index && SameAddress(b.index[k], b'.index[k]) && b'.index[k].tried == b.index[k].tried
    ensures b'.index[k].refs == b.index[k].refs + if k in b.news[i] then 0 else 1
    ensures OthersKept(b, b', k)
  {
    hide IsBad, Expires;
  }

  /** The first announcement of an address: a new entry with no history, in one bucket. */
  lemma AnnouncedNew(b: Book, h: Hashes, na: NetAddress, src: NetAddress, skip: bool, now: int, b': Book)
    requires b.Inv(h) && b.Shaped() && AddStep(b, h, na, src, skip, now, b') && na.key !in b.index
    ensures na.key in b'.index && b'.index[na.key] == Entry(na, src, 0, ZERO_TIME, ZERO_TIME, false, 1)
    ensures OthersKept(b, b', na.key)
  {
    hide ListsOf, BucketsOf, RefsOf, Book.Inv, IsBad, Expires, SpreadStep;
    var b1, i := Seen(b, na, src), h.NewBucket(na, src);
    InvShape(b, h, {});
    Spread(b1, i, na.key, now, b');
  }

  /** Where an announced address goes: nowhere if it is tried, in eight buckets already or held
      back by the coin, and into the one bucket its key and source hash to otherwise.  The other
      buckets and the tried lists stay. */
  lemma AnnouncedPlaces(b: Book, h: Hashes, na: NetAddress, src: NetAddress, skip: bool, now: int, b': Book)
    requires b.Inv(h) && b.Shaped() && AddStep(b, h, na, src, skip, now, b')
    ensures b'.tried == b.tried && |b'.news| == |b.news|
    ensures var i := h.NewBucket(na, src);
            && (forall j | 0 <= j < |b.news| && j != i :: b'.news[j] == b.news[j])
            && b'.news[i] <= b.news[i] + {na.key}
            && if na.key in b.index && (b.index[na.key].tried || b.index[na.key].refs == 8 || skip) then b'.news == b.news
               else na.key in b'.news[i]
  {
    hide ListsOf, BucketsOf, RefsOf, Book.Inv, IsBad, Expires;
    InvShape(b, h, {});
  }

  /** Who has to make room for it: nobody unless the bucket holds more than 64 addresses; then
      all bad ones and one more, which is no newer than any that stays. */
  lemma Expelled(b: Book, h: Hashes, na: NetAddress, src: NetAddress, skip: bool, now: int, b': Book)
    requires b.Inv(h) && b.Shaped() && AddStep(b, h, na, src, skip, now, b')
    ensures var i := h.NewBucket(na, src);
            && |b'.news| == |b.news| && b.news[i] <= b.index.Keys
            && (|b.news[i]| <= 64 ==> b.news[i] <= b'.news[i])
            && forall gone | gone in b.news[i] && gone !in b'.news[i] ::
                 && |b.news[i]| > 64 && na.key !in b.news[i]
                 && (forall x | x in b.news[i] && x in b'.news[i] ::
                       && !IsBad(b.index[x], now)
                       && (IsBad(b.index[gone], now) || b.index[gone].na.timestamp <= b.index[x].na.timestamp))
                 && (forall other | other in b.news[i] && other !in b'.news[i] && !IsBad(b.index[other], now) ::
                       IsBad(b.index[gone], now) || gone == other)
  {
    hide ListsOf, BucketsOf, RefsOf, Book.Inv, IsBad;
    InvShape(b, h, {});
    var b1, i, k := Seen(b, na, src), h.NewBucket(na, src), na.key;
    if !(k in b.index && (b.index[k].tried || b.index[k].refs == NEW_BUCKETS_PER_ADDRESS || skip)) && k !in b1.news[i]
       && |b1.news[i]| > NEW_BUCKET_SIZE {
      var gone: set<Key> :| ExpiredAndPlaced(b1, i, gone, now, k, b');
      assert forall x | x in b.news[i] :: b1.index[x] == b.index[x];
      assert b'.news[i] == b.news[i] - gone + {k};
    }
  }

  /** A success: the address is tried and stamped with the time, and its failures are forgotten.
      It keeps its address and source, and all others keep everything but count and flag. */
  lemma Succeeded(b: Book, h: Hashes, k: Key, now: int, b': Book)
    requires b.Inv(h) && b.Shaped() && GoodStep(b, h, k, now, b') && k in b.index
    ensures b'.index.Keys == b.index.Keys
    ensures var e, e' := b.index[k], b'.index[k];
            && e'.na == e.na && e'.src == e.src && e'.tried
            && e'.attempts == 0 && e'.lastAttempt == now && e'.lastSuccess == now
    ensures forall k' | k' in b.index && k' != k :: SameAddress(b.index[k'], b'.index[k'])
    ensures forall k' | k' in b.index && k' != k && b'.index[k'].tried != b.index[k'].tried ::
              b.index[k'].tried && !b.index[k].tried && |b.tried[h.TriedBucket(k)]| >= 256
  {
    hide ListsOf, BucketsOf, RefsOf, Book.Inv, Book.Promote, Evicted;
    IndexKey(b, h, k);
    var b1 := b.Touch(k, Stamped(b.index[k], now));
    TouchKeepsInv(b, h, k, Stamped(b.index[k], now), {});
    if !b.index[k].tried {
      if |b.tried[h.TriedBucket(k)]| < TRIED_BUCKET_SIZE {
        Promoted(b1, k, h.TriedBucket(k));
      } else {
        var p: nat, left: nat :| Evicted(b1, h, k, p, left, b');
        Exchanged(b1, h, k, p, left, b');
      }
    }
  }

  /** Where it goes if it was not tried: out of every new bucket and to the end of its tried list. */
  lemma SucceededJoins(b: Book, h: Hashes, k: Key, now: int, b': Book)
    requires b.Inv(h) && b.Shaped() && GoodStep(b, h, k, now, b') && k in b.index && !b.index[k].tried
    requires |b.tried[h.TriedBucket(k)]| < 256
    ensures b'.tried == b.tried[h.TriedBucket(k) := b.tried[h.TriedBucket(k)] + [k]]
    ensures |b'.news| == |b.news| && forall j | 0 <= j < |b.news| :: b'.news[j] == b.news[j] - {k}
  {
    hide ListsOf, BucketsOf, RefsOf, Book.Inv, Book.Promote, Evicted;
    IndexKey(b, h, k);
    TouchKeepsInv(b, h, k, Stamped(b.index[k], now), {});
    PromotedPlaces(b.Touch(k, Stamped(b.index[k], now)), h, k, h.TriedBucket(k));
  }

  /** A full list gives up an oldest address, the first of these, whose place it takes.  That one
      goes to its own bucket, or to the first bucket just left if 64 others are in its own. */
  lemma SucceededReplaces(b: Book, h: Hashes, k: Key, now: int, b': Book) returns (p: nat, left: nat)
    requires b.Inv(h) && b.Shaped() && GoodStep(b, h, k, now, b') && k in b.index && !b.index[k].tried
    requires |b.tried[h.TriedBucket(k)]| >= 256
    ensures IsOldest(b, b.tried[h.TriedBucket(k)], p) && IsFirst(b.news, k, left)
    ensures b'.tried == b.tried[h.TriedBucket(k) := b.tried[h.TriedBucket(k)][p := k]] && |b'.news| == |b.news|
    ensures var out := b.tried[h.TriedBucket(k)][p];
            var own := h.NewBucket(b.index[out].na, b.index[out].src);
            var i := if |b.news[own] - {k}| >= 64 then left else own;
            forall j | 0 <= j < |b.news| :: b'.news[j] == b.news[j] - {k} + if j == i then {out} else {}
  {
    hide ListsOf, BucketsOf, RefsOf, Book.Inv, Book.Promote, Evicted, FirstOldest, FirstHolder, IsOldest, IsFirst;
    IndexKey(b, h, k);
    var b1 := b.Touch(k, Stamped(b.index[k], now));
    TouchKeepsInv(b, h, k, Stamped(b.index[k], now), {});
    p, left :| Evicted(b1, h, k, p, left, b');
    ExchangedPlaces(b1, h, k, p, left, b');
    StillOldest(b, k, Stamped(b.index[k], now), b.tried[h.TriedBucket(k)], p);
    StillFirst(b.news, k, left);
  }

  lemma StillOldest(b: Book, k: Key, e: Entry, list: seq<Key>, p: nat)
    requires k in b.index && e.na == b.index[k].na && FirstOldest(b.Touch(k, e), list, p)
    ensures IsOldest(b, list, p) && p < |list| && list[p] in b.index
  {
  }

  lemma StillFirst(news: seq<set<Key>>, k: Key, left: nat)
    requires FirstHolder(news, k, left)
    ensures IsFirst(news, k, left)
  {
  }

  /** Position `p` holds the first of the oldest addresses. */
  ghost predicate IsOldest(b: Book, list: seq<Key>, p: nat) {
    && p < |list| && (forall x | x in list :: x in b.index)
    && (forall i | 0 <= i < |list| :: b.index[list[p]].na.timestamp <= b.index[list[i]].na.timestamp)
    && (forall i | 0 <= i < p :: b.index[list[p]].na.timestamp < b.index[list[i]].na.timestamp)
  }

  ghost predicate IsFirst(news: seq<set<Key>>, k: Key, left: nat) {
    left < |news| && k in news[left] && forall j | 0 <= j < left :: k !in news[j]
  }

  lemma PromotedPlaces(b: Book, h: Hashes, k: Key, c: nat)
    requires b.Inv(h) && k in b.index && c < |b.tried|
    ensures var b' := b.Promote(k, c);
            b'.tried == b.tried[c := b.tried[c] + [k]] && b'.news == Without(b.news, k)
  {
    hide ListsOf, BucketsOf, RefsOf, Book.Inv;
    LeaveShape(b, h, k);
  }

  lemma ExchangedPlaces(b: Book, h: Hashes, k: Key, p: nat, left: nat, b': Book)
    requires b.Inv(h) && b.Shaped() && k in b.NewKeys() && Evicted(b, h, k, p, left, b')
    ensures var c := h.TriedBucket(k);
            var out := b.tried[c][p];
            var own := h.NewBucket(b.index[out].na, b.index[out].src);
            var i := if |Without(b.news, k)[own]| >= NEW_BUCKET_SIZE then left else own;
            && FirstOldest(b, b.tried[c], p) && FirstHolder(b.news, k, left) && out != k
            && b'.tried == b.tried[c := b.tried[c][p := k]]
            && b'.news == Without(b.news, k)[i := Without(b.news, k)[i] + {out}]
  {
    hide ListsOf, BucketsOf, RefsOf, Book.Inv, FirstHolder;
    ListedIsTried(b, h, h.TriedBucket(k), p);
    LeaveShape(b, h, k);
  }

  lemma Promoted(b: Book, k: Key, c: nat)
    requires k in b.index && c < |b.tried|
    ensures var b' := b.Promote(k, c);
            && b'.index.Keys == b.index.Keys && SameAddress(b.index[k], b'.index[k]) && b'.index[k].tried
            && forall k' | k' in b.index && k' != k :: b'.index[k'] == b.index[k']
  {
  }

  lemma Exchanged(b: Book, h: Hashes, k: Key, p: nat, left: nat, b': Book)
    requires b.Inv(h) && b.Shaped() && k in b.NewKeys() && Evicted(b, h, k, p, left, b')
    ensures b'.index.Keys == b.index.Keys && SameAddress(b.index[k], b'.index[k]) && b'.index[k].tried
    ensures forall k' | k' in b.index && k' != k ::
              SameAddress(b.index[k'], b'.index[k']) && (b'.index[k'].tried == b.index[k'].tried || b.index[k'].tried)
  {
    hide ListsOf, BucketsOf, RefsOf, Book.Inv, Without, FirstHolder;
    ListedIsTried(b, h, h.TriedBucket(k), p);
  }

  /** When an address is bad: never within a minute of an attempt; after that if its time stamp
      is more than ten minutes ahead or thirty days back; and otherwise by its failures, three if
      it never succeeded and ten if its last success is a week ago. */
  lemma WhenBad(e: Entry, now: int)
    ensures now - e.lastAttempt < 60 ==> !IsBad(e, now)
    ensures now - e.lastAttempt >= 60 && (e.na.timestamp - now > 600 || now - e.na.timestamp > 30 * 86400) ==> IsBad(e, now)
    ensures now - e.lastAttempt >= 60 && -30 * 86400 <= e.na.timestamp - now <= 600 ==>
              (IsBad(e, now) <==>
                 if e.lastSuccess == ZERO_TIME then e.attempts >= 3 else now - e.lastSuccess >= 7 * 86400 && e.attempts >= 10)
  {
  }
}
