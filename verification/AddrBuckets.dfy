/** How full a new bucket can get: the test before an entry lets it grow one past its nominal size. */
module AddrBuckets {
  import opened AddrBook

  const OVERFULL := NEW_BUCKET_SIZE + 1

  /** The announcement makes the address enter bucket `i`. */
  ghost predicate Enters(b: Book, h: Hashes, na: NetAddress, src: NetAddress, skip: bool, i: nat) {
    var k := na.key;
    && i == h.NewBucket(na, src) && i < |b.news| && k !in b.news[i]
    && !(k in b.index && (b.index[k].tried || b.index[k].refs == NEW_BUCKETS_PER_ADDRESS || skip))
  }

  ghost predicate NoneBad(b: Book, i: nat, now: int)
    requires i < |b.news| && b.news[i] <= b.index.Keys
  {
    forall k | k in b.news[i] :: !IsBad(b.index[k], now)
  }

  /** After an announcement a bucket is overfull exactly when the address entered it and it was
      at its nominal size, or overfull without a bad address; or when it was overfull and not entered. */
  lemma OverfullAfterAdd(b: Book, h: Hashes, na: NetAddress, src: NetAddress, skip: bool, now: int, b': Book, i: nat)
    requires b.Inv(h) && b.Shaped() && AddStep(b, h, na, src, skip, now, b') && i < |b.news|
    ensures |b'.news| == |b.news| && b.news[i] <= b.index.Keys
    ensures |b'.news[i]| == OVERFULL <==>
              if Enters(b, h, na, src, skip, i) then |b.news[i]| == NEW_BUCKET_SIZE || (|b.news[i]| == OVERFULL && NoneBad(b, i, now))
              else |b.news[i]| == OVERFULL
  {
    hide ListsOf, BucketsOf, RefsOf, Book.Inv, IsBad, Expires;
    InvShape(b, h, {});
    BucketSize(b, h, i, {});
    if Enters(b, h, na, src, skip, i) {
      var b1 := Seen(b, na, src);
      OverfullAfterEntry(b1, i, na.key, now, b');
      assert forall k | k in b.news[i] :: b1.index[k] == b.index[k];
    } else {
      NotEntered(b, h, na, src, skip, now, b', i);
    }
  }

  lemma OverfullAfterEntry(b: Book, i: nat, k: Key, now: int, b': Book)
    requires i < |b.news| && |b.news[i]| <= OVERFULL && b.news[i] <= b.index.Keys
    requires k in b.index && k !in b.news[i] && SpreadStep(b, i, k, now, b')
    ensures |b'.news| == |b.news|
    ensures |b'.news[i]| == OVERFULL <==> |b.news[i]| == NEW_BUCKET_SIZE || (|b.news[i]| == OVERFULL && NoneBad(b, i, now))
  {
    hide IsBad, Expires, NoneBad;
    if |b.news[i]| == OVERFULL {
      var gone: set<Key> :| ExpiredAndPlaced(b, i, gone, now, k, b');
      ExpiredCount(b, i, gone, now);
      assert b'.news[i] == b.news[i] - gone + {k};
      assert |b.news[i] - gone| == |b.news[i]| - |gone|;
    }
  }

  lemma NotEntered(b: Book, h: Hashes, na: NetAddress, src: NetAddress, skip: bool, now: int, b': Book, i: nat)
    requires b.Shaped() && AddStep(b, h, na, src, skip, now, b') && i < |b.news| && !Enters(b, h, na, src, skip, i)
    ensures |b'.news| == |b.news| && b'.news[i] == b.news[i]
  {
    hide IsBad, Expires;
  }

  /** An expiry of a bucket with two or more addresses takes exactly one when none of them is bad. */
  lemma ExpiredCount(b: Book, i: nat, gone: set<Key>, now: int)
    requires i < |b.news| && gone <= b.news[i] <= b.index.Keys && Expires(b, i, gone, now) && |b.news[i]| >= 2
    ensures |gone| == 1 <==> NoneBad(b, i, now)
  {
    hide IsBad;
    var bad := set k | k in b.news[i] && IsBad(b.index[k], now);
    if bad != b.news[i] {
      var oldest :| oldest in b.news[i] - bad && gone == bad + {oldest};
      assert |gone| == |bad| + 1;
    }
    if NoneBad(b, i, now) { assert bad == {}; }
    if bad == {} { assert NoneBad(b, i, now); }
  }

  /** An exchange leaves a bucket overfull exactly when it was, and the promoted address was not in it
      or the evicted one takes its place there. */
  lemma OverfullAfterEviction(b: Book, h: Hashes, k: Key, p: nat, left: nat, b': Book, i: nat)
    requires b.Inv(h) && b.Shaped() && k in b.NewKeys() && Evicted(b, h, k, p, left, b') && i < |b.news|
    ensures |b'.news| == |b.news|
    ensures var out := b.tried[h.TriedBucket(k)][p];
            var own := h.NewBucket(b.index[out].na, b.index[out].src);
            |b'.news[i]| == OVERFULL <==>
              |b.news[i]| == OVERFULL && (k !in b.news[i] || (i == left && |Without(b.news, k)[own]| >= NEW_BUCKET_SIZE))
  {
    hide ListsOf, BucketsOf, RefsOf, Book.Inv, FirstOldest;
    var c := h.TriedBucket(k);
    assert p < |b.tried[c]| by { OldestIn(b, b.tried[c], p); }
    var out := b.tried[c][p];
    ListedIsTried(b, h, c, p);
    InNoBucket(b, h, out);
    LeaveShape(b, h, k);
    BucketSize(b, h, i, {});
    assert b'.news[i] == b.news[i] - {k} || b'.news[i] == b.news[i] - {k} + {out};
    assert |b.news[i] - {k}| == |b.news[i]| - if k in b.news[i] then 1 else 0;
  }

  lemma OldestIn(b: Book, list: seq<Key>, p: nat)
    requires FirstOldest(b, list, p)
    ensures p < |list|
  {
  }

  lemma InNoBucket(b: Book, h: Hashes, k: Key)
    requires b.Inv(h) && k in b.TriedKeys()
    ensures forall i | 0 <= i < |b.news| :: k !in b.news[i]
  {
    forall i | 0 <= i < |b.news| ensures k !in b.news[i] {
      if k in b.news[i] { BucketedIsNew(b, h, i, k); }
    }
  }

  /** A success never makes a bucket overfull. */
  lemma OverfullAfterGood(b: Book, h: Hashes, k: Key, now: int, b': Book, i: nat)
    requires b.Inv(h) && b.Shaped() && GoodStep(b, h, k, now, b') && i < |b.news|
    ensures |b'.news| == |b.news| && (|b'.news[i]| == OVERFULL ==> |b.news[i]| == OVERFULL)
  {
    hide ListsOf, BucketsOf, RefsOf, Book.Inv, Evicted, Book.Leave;
    if k in b.index && !b.index[k].tried {
      IndexKey(b, h, k);
      var b1 := b.Touch(k, Stamped(b.index[k], now));
      TouchKeepsInv(b, h, k, Stamped(b.index[k], now), {});
      if |b.tried[h.TriedBucket(k)]| < TRIED_BUCKET_SIZE {
        LeaveShape(b1, h, k);
        BucketSize(b, h, i, {});
        assert |b.news[i] - {k}| == |b.news[i]| - if k in b.news[i] then 1 else 0;
      } else {
        var p: nat, left: nat :| Evicted(b1, h, k, p, left, b');
        OverfullAfterEviction(b1, h, k, p, left, b', i);
      }
    }
  }

  /** So a bucket becomes overfull only from its nominal size, by an announcement. */
  lemma OverfullOnlyFromFull(b: Book, h: Hashes, b': Book, i: nat)
    requires b.Inv(h) && Step(b, h, b') && i < |b.news|
    ensures |b'.news| == |b.news| && (|b'.news[i]| == OVERFULL ==> |b.news[i]| in {NEW_BUCKET_SIZE, OVERFULL})
  {
    hide AddStep, GoodStep, Book.Inv;
    if na, src, skip, now :| AddStep(b, h, na, src, skip, now, b') {
      OverfullAfterAdd(b, h, na, src, skip, now, b', i);
    } else {
      var k, now :| GoodStep(b, h, k, now, b');
      OverfullAfterGood(b, h, k, now, b', i);
    }
  }

  /** Addresses with pairwise different keys. */
  function Nth(n: nat): NetAddress {
    NetAddress(Key(seq(n, _ => '1')), 0, {})
  }

  /** Announcing new addresses that all hash to bucket 0 fills it, one past its nominal size. */
  lemma {:induction false} Fill(h: Hashes, n: nat) returns (run: seq<Book>)
    requires n <= OVERFULL && forall na, src :: h.NewBucket(na, src) == 0
    ensures |run| == n + 1 && Fresh(run[0]) && (forall i | 0 <= i < n :: Step(run[i], h, run[i + 1]))
    ensures run[n].Shaped() && |run[n].news[0]| == n && run[n].news[0] == run[n].index.Keys
    ensures forall k | k in run[n].index :: |k.hostPort| < n
  {
    if n == 0 {
      run := [Book(map[], seq(NEW_BUCKET_COUNT, _ => {}), seq(TRIED_BUCKET_COUNT, _ => []), 0, 0)];
    } else {
      var before := Fill(h, n - 1);
      var b, na := before[n - 1], Nth(n - 1);
      var b' := Seen(b, na, na).Place(0, na.key);
      assert AddStep(b, h, na, na, false, 0, b');
      run := before + [b'];
    }
  }

  /** A run from a fresh manager at whose end a bucket holds 65 addresses. */
  lemma ReachesOverfull() returns (h: Hashes, run: seq<Book>)
    ensures run != [] && Fresh(run[0]) && (forall i | 0 <= i < |run| - 1 :: Step(run[i], h, run[i + 1]))
    ensures run[|run| - 1].Shaped() && |run[|run| - 1].news[0]| == OVERFULL == 65
  {
    h := Hashes((k, s) => 0, k => 0);
    run := Fill(h, OVERFULL);
  }
}
