/** The cache behind the answers to getcfcheckpt requests: for some one branch, the
    hash of every thousandth block and its committed filter header.  The cache is a
    slice, and growing it may write into the array that the old slice still shows. */
module CfCheckpoint {
  import opened Bytes
  import opened ChainTree
  import opened ChainView
  import opened ChainQuery
  import opened Options

  const CF_CHECKPT_INTERVAL := 1000

  type FilterHeader = bytes
  datatype KeyValue = KeyValue(blockHash: BlockHash, filterHeader: FilterHeader)
  type Headers = BlockHash -> FilterHeader

  const EMPTY_ENTRY := KeyValue(ZERO_HASH, [])

  ghost function Interval(n: BlockNode): seq<BlockHash>
    requires Linked(n)
  {
    IntervalHashes(n, CF_CHECKPT_INTERVAL)
  }

  /** The entry of a block. */
  function EntryOf(headerOf: Headers, hash: BlockHash): KeyValue {
    KeyValue(hash, headerOf(hash))
  }

  /** The cache lists the interval blocks of the branch that ends in `n`. */
  ghost predicate CacheOf(headerOf: Headers, cache: seq<KeyValue>, n: BlockNode) {
    && Linked(n) && |cache| == |Interval(n)|
    && forall i | 0 <= i < |cache| :: cache[i] == EntryOf(headerOf, Interval(n)[i])
  }

  /** The cache is that of some one indexed branch. */
  ghost predicate Sound(headerOf: Headers, cache: seq<KeyValue>, index: Index) {
    cache == [] || exists h :: h in index && CacheOf(headerOf, cache, index[h])
  }

  /** The answer that looks up every header afresh. */
  function Uncached(headerOf: Headers, hashes: seq<BlockHash>): (r: seq<FilterHeader>)
    ensures |r| == |hashes| && forall i | 0 <= i < |hashes| :: r[i] == headerOf(hashes[i])
  {
    seq(|hashes|, i requires 0 <= i < |hashes| => headerOf(hashes[i]))
  }

  /** The cache, lengthened with empty entries to at least `n`. */
  function Grown(cache: seq<KeyValue>, n: nat): (r: seq<KeyValue>)
    ensures |r| == (if n > |cache| then n else |cache|) && cache <= r
    ensures forall i | |cache| <= i < |r| :: r[i] == EMPTY_ENTRY
  {
    if n > |cache| then cache + seq(n - |cache|, _ => EMPTY_ENTRY) else cache
  }

  /** The last position up to `f` after an entry for the requested block. */
  function ForkFrom(work: seq<KeyValue>, hashes: seq<BlockHash>, f: nat): (r: nat)
    requires f <= |work| && f <= |hashes|
    ensures r <= f && (r > 0 ==> work[r - 1].blockHash == hashes[r - 1])
    ensures forall i | r <= i < f :: work[i].blockHash != hashes[i]
  {
    if f == 0 || work[f - 1].blockHash == hashes[f - 1] then f else ForkFrom(work, hashes, f - 1)
  }

  /** The length of the usable part of the cache. */
  function Fork(cache: seq<KeyValue>, hashes: seq<BlockHash>): (r: nat)
    ensures r <= |hashes|
  {
    ForkFrom(Grown(cache, |hashes|)[..|hashes|], hashes, |hashes|)
  }

  /** The first position from `i` on whose block the filter index has no header for. */
  function Missing(hashes: seq<BlockHash>, present: set<BlockHash>, i: nat): (r: nat)
    requires i <= |hashes|
    ensures i <= r <= |hashes| && (r < |hashes| ==> hashes[r] !in present)
    ensures forall j | i <= j < r :: hashes[j] in present
    decreases |hashes| - i
  {
    if i == |hashes| || hashes[i] !in present then i else Missing(hashes, present, i + 1)
  }

  /** The cached headers up to the fork, fresh ones after it. */
  function Spliced(headerOf: Headers, cache: seq<KeyValue>, hashes: seq<BlockHash>): (r: seq<FilterHeader>)
    ensures |r| == |hashes|
  {
    seq(|hashes|, i requires 0 <= i < |hashes| =>
      if i < Fork(cache, hashes) then Grown(cache, |hashes|)[i].filterHeader else headerOf(hashes[i]))
  }

  lemma SplicedIs(headerOf: Headers, cache: seq<KeyValue>, hashes: seq<BlockHash>, msg: seq<FilterHeader>)
    requires |msg| == Fork(cache, hashes) && forall i | 0 <= i < |msg| :: msg[i] == Grown(cache, |hashes|)[i].filterHeader
    ensures msg + Uncached(headerOf, hashes)[|msg|..] == Spliced(headerOf, cache, hashes)
  {
    hide Fork, Grown;
  }

  /** `cache` with the entries from `f` up to `m` overwritten by those of the requested blocks. */
  function Overlaid(headerOf: Headers, cache: seq<KeyValue>, hashes: seq<BlockHash>, f: nat, m: nat): (r: seq<KeyValue>)
    requires m <= |hashes|
    ensures |r| == |cache|
    ensures forall i | 0 <= i < |cache| :: r[i] == if f <= i < m then EntryOf(headerOf, hashes[i]) else cache[i]
  {
    seq(|cache|, i requires 0 <= i < |cache| => if f <= i < m then EntryOf(headerOf, hashes[i]) else cache[i])
  }

  /** The cache after a request: unchanged by one that is no longer than it; grown and
      overwritten from the fork by an answered one; and, by one that fails at `m` after the
      headers were fetched, overwritten up to there if it was grown in place. */
  function Left(headerOf: Headers, cache: seq<KeyValue>, capacity: nat, hashes: seq<BlockHash>, present: set<BlockHash>,
                fetched: bool): seq<KeyValue>
  {
    var f := Fork(cache, hashes);
    var m := Missing(hashes, present, f);
    if |hashes| <= |cache| || !fetched then cache
    else if m == |hashes| then Overlaid(headerOf, Grown(cache, |hashes|), hashes, f, m)
    else if |hashes| <= capacity then Overlaid(headerOf, cache, hashes, f, m)
    else cache
  }

  /** A request for a longer branch spoils the cache when it fails after the headers were
      fetched, the array had room for it, and the first missing header lies past the fork but
      before the end of the old cache. */
  predicate Spoils(cache: seq<KeyValue>, capacity: nat, hashes: seq<BlockHash>, present: set<BlockHash>, fetched: bool) {
    && fetched && |cache| < |hashes| <= capacity
    && Fork(cache, hashes) < Missing(hashes, present, Fork(cache, hashes)) < |cache|
  }

  /** The capacity after a request: a longer array is taken over with the answer. */
  function Capacity(capacity: nat, hashes: seq<BlockHash>, answered: bool, spare: nat): nat {
    if answered && |hashes| > capacity then |hashes| + spare else capacity
  }

  /** A cache and the capacity of its array. */
  datatype Slice = Slice(cache: seq<KeyValue>, capacity: nat)

  /** A request, with the index and the view it meets; `valid` tells whether the block it names
      has been validated. */
  datatype Request = Request(index: Index, view: ChainView, current: bool, regular: bool, stopHash: BlockHash, valid: bool,
                             present: set<BlockHash>, fetched: bool, spare: nat) {
    ghost predicate Possible()
      reads view, view.buf, index.Values
    {
      && Ready(index, view) && ZERO_HASH !in index
      && (stopHash in index ==> (valid <==> index[stopHash].status.valid))
    }

    /** It spoils the cache. */
    ghost predicate SpoilsAt(s: Slice) {
      && current && regular && stopHash in index && valid && Linked(index[stopHash])
      && Spoils(s.cache, s.capacity, Interval(index[stopHash]), present, fetched)
    }

    /** The filter index has all headers it asks for. */
    ghost predicate Complete() {
      stopHash in index && Linked(index[stopHash]) ==> forall h | h in Interval(index[stopHash]) :: h in present
    }

    /** The answer, if there is one, is the one without a cache. */
    ghost predicate Right(headerOf: Headers, reply: Option<seq<FilterHeader>>) {
      reply.Some? ==> stopHash in index && Linked(index[stopHash]) && reply.value == Uncached(headerOf, Interval(index[stopHash]))
    }
  }

  ghost predicate Grows(index: Index, index': Index) {
    forall h | h in index :: h in index' && index'[h] == index[h]
  }

  /** Requests made one after the other meet an index that only grows. */
  ghost predicate Successive(requests: seq<Request>) {
    forall i, j | 0 <= i < j < |requests| :: Grows(requests[i].index, requests[j].index)
  }

  /** None of the first `n` requests spoils the cache that it meets. */
  ghost predicate Unspoiled(requests: seq<Request>, trail: seq<Slice>, n: nat)
    requires n <= |requests| && n <= |trail|
  {
    forall i | 0 <= i < n :: !requests[i].SpoilsAt(trail[i])
  }

  class Checkpoints {
    /** The slice: a backing array and the length in use. */
    var buf: array<KeyValue>
    var len: nat
    /** The committed filter header of a block. */
    const headerOf: Headers

    ghost predicate Valid()
      reads this
    {
      len <= buf.Length
    }

    function Cache(): seq<KeyValue>
      requires Valid()
      reads this, buf
    {
      buf[..len]
    }

    constructor (headerOf: Headers)
      ensures Valid() && this.headerOf == headerOf && fresh(buf) && Cache() == []
    {
      this.headerOf, len := headerOf, 0;
      buf := new KeyValue[0];
    }

    /** Appends empty entries: in place if the array has room, and in a new array,
        with `spare` slots more, if not. */
    method Grow(n: nat, spare: nat) returns (work: array<KeyValue>)
      requires Valid() && n > len
      modifies buf
      ensures n <= work.Length && work[..n] == Grown(old(Cache()), n)
      ensures work.Length == if n <= buf.Length then buf.Length else n + spare
      ensures Cache() == old(Cache())
      ensures if n <= buf.Length then work == buf else fresh(work)
    {
      if n <= buf.Length {
        work := buf;
        forall i | len <= i < n { work[i] := EMPTY_ENTRY; }
      } else {
        work := new KeyValue[n + spare](_ => EMPTY_ENTRY);
        forall i | 0 <= i < len { work[i] := buf[i]; }
      }
    }

    method ForkIndex(work: array<KeyValue>, hashes: seq<BlockHash>) returns (forkIdx: nat)
      requires |hashes| <= work.Length
      ensures forkIdx == ForkFrom(work[..|hashes|], hashes, |hashes|)
    {
      forkIdx := |hashes|;
      while forkIdx > 0
        invariant forkIdx <= |hashes|
        invariant ForkFrom(work[..|hashes|], hashes, |hashes|) == ForkFrom(work[..|hashes|], hashes, forkIdx)
      {
        if work[forkIdx - 1].blockHash == hashes[forkIdx - 1] { break; }
        forkIdx := forkIdx - 1;
      }
    }

    /** Answers a request for the given blocks. */
    method Answer(hashes: seq<BlockHash>, present: set<BlockHash>, fetched: bool, spare: nat) returns (reply: Option<seq<FilterHeader>>)
      requires Valid()
      modifies this, buf
      ensures Valid() && (buf == old(buf) || fresh(buf))
      ensures reply.Some? <==> fetched && Missing(hashes, present, Fork(old(Cache()), hashes)) == |hashes|
      ensures reply.Some? ==> reply.value == Spliced(headerOf, old(Cache()), hashes)
      ensures Cache() == Left(headerOf, old(Cache()), old(buf.Length), hashes, present, fetched)
      ensures buf.Length == Capacity(old(buf.Length), hashes, reply.Some?, spare)
    {
      hide ForkFrom, Missing, Spliced, Overlaid;
      ghost var cache := Cache();
      var work, updateCache := buf, false;
      if |hashes| > len {
        updateCache := true;
        work := Grow(|hashes|, spare);
      }
      var forkIdx := ForkIndex(work, hashes);
      assert work[..|hashes|] == Grown(cache, |hashes|)[..|hashes|];
      assert updateCache ==> work[..|hashes|] == Grown(cache, |hashes|);
      var msg := Cached(work, forkIdx);
      if !fetched { return None; }
      SplicedIs(headerOf, cache, hashes, msg);
      reply := Fetch(work, hashes, forkIdx, msg, present, updateCache);
    }

    /** The headers of the first entries of an array. */
    method Cached(work: array<KeyValue>, n: nat) returns (msg: seq<FilterHeader>)
      requires n <= work.Length
      ensures |msg| == n && forall i | 0 <= i < n :: msg[i] == work[i].filterHeader
    {
      msg := [];
      for i := 0 to n
        invariant |msg| == i && forall j | 0 <= j < i :: msg[j] == work[j].filterHeader
      {
        msg := msg + [work[i].filterHeader];
      }
    }

    /** Adds the fetched headers to the answer and to the grown cache, and keeps that
        cache only if none is missing. */
    method Fetch(work: array<KeyValue>, hashes: seq<BlockHash>, forkIdx: nat, cached: seq<FilterHeader>, present: set<BlockHash>,
                 updateCache: bool) returns (reply: Option<seq<FilterHeader>>)
      requires Valid() && forkIdx <= |hashes| <= work.Length && |cached| == forkIdx
      modifies this, work
      ensures Valid() && buf == if updateCache && reply.Some? then work else old(buf)
      ensures var m := Missing(hashes, present, forkIdx);
              && (reply.Some? <==> m == |hashes|)
              && (reply.Some? ==> reply.value == cached + Uncached(headerOf, hashes)[forkIdx..])
              && Cache() == if !updateCache then old(Cache())
                            else if m == |hashes| then Overlaid(headerOf, old(work[..|hashes|]), hashes, forkIdx, m)
                            else if work == old(buf) then Overlaid(headerOf, old(Cache()), hashes, forkIdx, m)
                            else old(Cache())
    {
      var msg, i := cached, forkIdx;
      while i < |hashes|
        invariant forkIdx <= i <= |hashes| && buf == old(buf) && len == old(len)
        invariant Missing(hashes, present, forkIdx) == Missing(hashes, present, i)
        invariant msg == cached + Uncached(headerOf, hashes)[forkIdx..i]
        invariant forall j | 0 <= j < work.Length ::
                    work[j] == if updateCache && forkIdx <= j < i then EntryOf(headerOf, hashes[j]) else old(work[j])
      {
        if hashes[i] !in present { return None; }
        msg := msg + [headerOf(hashes[i])];
        if updateCache {
          work[i] := EntryOf(headerOf, hashes[i]);
        }
        i := i + 1;
      }
      if updateCache {
        buf, len := work, |hashes|;
      }
      return Some(msg);
    }

    /** Answers a request.  `present` are the blocks the filter index has a header for,
        `fetched` tells whether it could be asked at all. */
    method OnGetCFCheckpt(index: Index, view: ChainView, current: bool, regular: bool, stopHash: BlockHash,
                          present: set<BlockHash>, fetched: bool, spare: nat) returns (reply: Option<seq<FilterHeader>>)
      requires Ready(index, view) && ZERO_HASH !in index && Valid()
      modifies this, buf
      ensures Valid() && (buf == old(buf) || fresh(buf))
      ensures current && regular && stopHash in index && index[stopHash].status.valid ==>
                && Linked(index[stopHash]) && buf.Length == Capacity(old(buf.Length), Interval(index[stopHash]), reply.Some?, spare)
                && Answered(index, index[stopHash], old(Cache()), old(buf.Length), present, fetched, reply, Cache())
      ensures !(current && regular && stopHash in index && index[stopHash].status.valid) ==>
                reply.None? && Cache() == old(Cache()) && buf == old(buf)
    {
      hide Spliced, Overlaid, Grown, Fork, Missing, Uncached, Sound, Spoils, IntervalHashes;
      if !current { return None; }
      if !regular { return None; }
      var found := IntervalBlockHashes(index, view, stopHash, CF_CHECKPT_INTERVAL);
      if found.None? { return None; }
      ghost var cache, capacity := Cache(), buf.Length;
      reply := Answer(found.value, present, fetched, spare);
      AnswerIsRight(headerOf, index, index[stopHash], cache, capacity, present, fetched);
    }

    /** A run of requests from an empty cache.  As long as none of them spoils the cache, which
        none does that is complete, every answer is the one without a cache and the cache is that
        of one branch. */
    method Serve(requests: seq<Request>) returns (replies: seq<Option<seq<FilterHeader>>>, ghost trail: seq<Slice>)
      requires Valid() && Cache() == [] && Successive(requests) && forall r | r in requests :: r.Possible()
      modifies this, buf
      ensures Valid() && |replies| == |requests| && |trail| == |requests| + 1
      ensures trail[0] == old(Slice(Cache(), buf.Length)) && trail[|requests|] == Slice(Cache(), buf.Length)
      ensures forall i | 0 <= i < |requests| :: requests[i].Complete() ==> !requests[i].SpoilsAt(trail[i])
      ensures forall i | 0 <= i < |requests| :: Unspoiled(requests, trail, i) ==>
                && requests[i].Right(headerOf, replies[i])
                && (Sound(headerOf, trail[i + 1].cache, requests[i].index) <==> !requests[i].SpoilsAt(trail[i]))
      ensures (forall r | r in requests :: r.Complete()) ==> Unspoiled(requests, trail, |requests|)
      ensures Unspoiled(requests, trail, |requests|) ==>
                && (forall i | 0 <= i < |requests| :: requests[i].Right(headerOf, replies[i]))
                && (requests != [] ==> Sound(headerOf, Cache(), requests[|requests| - 1].index))
    {
      hide Sound, Grows, Unspoiled, Request.Possible, Request.SpoilsAt, Request.Complete, Request.Right;
      replies, trail := [], [Slice(Cache(), buf.Length)];
      EmptySound(headerOf, map[]);
      EmptyGrows();
      for i := 0 to |requests|
        invariant Valid() && (buf == old(buf) || fresh(buf)) && |replies| == i && |trail| == i + 1
        invariant forall r | r in requests :: r.Possible()
        invariant trail[0] == old(Slice(Cache(), buf.Length)) && trail[i] == Slice(Cache(), buf.Length)
        invariant forall k | 0 <= k < i :: requests[k].Complete() ==> !requests[k].SpoilsAt(trail[k])
        invariant forall k | 0 <= k < i :: Unspoiled(requests, trail, k) ==>
                    && requests[k].Right(headerOf, replies[k])
                    && (Sound(headerOf, trail[k + 1].cache, requests[k].index) <==> !requests[k].SpoilsAt(trail[k]))
      {
        ghost var before := trail;
        if i > 0 { UnspoiledNext(requests, before, i - 1); }
        var reply := ServeOne(requests[i], if i == 0 then map[] else requests[i - 1].index);
        replies, trail := replies + [reply], trail + [Slice(Cache(), buf.Length)];
        forall k | 0 <= k <= i ensures Unspoiled(requests, trail, k) <==> Unspoiled(requests, before, k) {
          Lengthened(requests, before, trail, k);
        }
      }
      UnspoiledAll(requests, trail);
    }

    method ServeOne(r: Request, ghost last: Index) returns (reply: Option<seq<FilterHeader>>)
      requires Valid() && r.Possible() && Grows(last, r.index)
      modifies this, buf
      ensures Valid() && (buf == old(buf) || fresh(buf))
      ensures r.Complete() ==> !r.SpoilsAt(old(Slice(Cache(), buf.Length)))
      ensures Sound(headerOf, old(Cache()), last) ==>
                && r.Right(headerOf, reply)
                && (Sound(headerOf, Cache(), r.index) <==> !r.SpoilsAt(old(Slice(Cache(), buf.Length))))
    {
      hide Spliced, Uncached, IntervalHashes, Spoils, Left, Fork, Missing, Ready, Sound;
      if Sound(headerOf, Cache(), last) { GrowthKeepsCache(headerOf, Cache(), last, r.index); }
      if r.Complete() { CompleteNeverSpoils(r, Slice(Cache(), buf.Length)); }
      reply := OnGetCFCheckpt(r.index, r.view, r.current, r.regular, r.stopHash, r.present, r.fetched, r.spare);
    }

    /** Three requests, for one valid branch, for another that lacks a header, and for the first
        again, whose second answer is wrong. */
    method SpoiledRun(index: Index, view: ChainView, a: BlockHash, b: BlockHash, present: set<BlockHash>, spare: nat)
      returns (reply: Option<seq<FilterHeader>>)
      requires Ready(index, view) && ZERO_HASH !in index && Valid() && Cache() == [] && buf.Length == 0 && spare > 0
      requires a in index && b in index && index[a].status.valid && index[b].status.valid && Parted(headerOf, index[a], index[b])
      requires (forall h | h in Interval(index[a]) :: h in present) && Interval(index[b])[2] in present && Interval(index[b])[3] !in present
      modifies this, buf
      ensures Linked(index[a]) && reply.Some? && reply.value != Uncached(headerOf, Interval(index[a]))
    {
      hide Spliced, Uncached, IntervalHashes, Parted, Ready, Sound, Spoils, Left, Fork, Missing, CacheOf;
      ReadyKnown(index, view, a);
      ReadyKnown(index, view, b);
      ghost var hashes := Interval(index[a]);
      NoneMissing(hashes, present, Fork([], hashes));
      PartedLengths(headerOf, index[a], index[b]);
      FirstCache(headerOf, index, index[a], present);
      reply := OnGetCFCheckpt(index, view, true, true, a, present, true, spare);
      ghost var cache := Cache();
      SpoiledExample(headerOf, index, index[a], index[b], cache, buf.Length, present);
      reply := OnGetCFCheckpt(index, view, true, true, b, present, true, spare);
      NoneMissing(hashes, present, Fork(Cache(), hashes));
      reply := OnGetCFCheckpt(index, view, true, true, a, present, true, spare);
    }

    /** What a request for the branch up to `stop` gets and what it leaves behind: with a sound
        cache before, an answer is the one without a cache, and the cache stays sound unless the
        request spoils it. */
    ghost predicate Answered(index: Index, stop: BlockNode, cache: seq<KeyValue>, capacity: nat, present: set<BlockHash>,
                             fetched: bool, reply: Option<seq<FilterHeader>>, after: seq<KeyValue>)
      requires Linked(stop)
      reads this
    {
      var hashes := Interval(stop);
      && (reply.Some? <==> fetched && Missing(hashes, present, Fork(cache, hashes)) == |hashes|)
      && (reply.Some? ==> reply.value == Spliced(headerOf, cache, hashes))
      && after == Left(headerOf, cache, capacity, hashes, present, fetched)
      && (Sound(headerOf, cache, index) && reply.Some? ==> reply.value == Uncached(headerOf, hashes))
      && (Sound(headerOf, cache, index) ==>
            (Sound(headerOf, after, index) <==> !Spoils(cache, capacity, hashes, present, fetched)))
    }
  }

  ghost predicate Known(index: Index, n: BlockNode) {
    IndexOk(index) && n.hash in index && index[n.hash] == n && Linked(n)
  }

  /** A match on one interval block of two indexed branches is a match on all before it. */
  lemma MatchIsPrefix(index: Index, a: BlockNode, b: BlockNode, i: nat)
    requires Known(index, a) && Known(index, b) && i < |Interval(a)| && i < |Interval(b)| && Interval(a)[i] == Interval(b)[i]
    ensures Interval(a)[..i + 1] == Interval(b)[..i + 1]
  {
    hide Path, Linked, Multiple;
    var h := Multiple(i + 1, CF_CHECKPT_INTERVAL);
    MultipleBound(i + 1, CF_CHECKPT_INTERVAL, a.height);
    MultipleBound(i + 1, CF_CHECKPT_INTERVAL, b.height);
    AncestorsIndexed(index, a, h);
    AncestorsIndexed(index, b, h);
    PathOfPath(a, h);
    PathOfPath(b, h);
    forall j | 0 <= j <= i ensures Interval(a)[j] == Interval(b)[j] {
      var k := Multiple(j + 1, CF_CHECKPT_INTERVAL);
      MultipleBelow(j + 1, i + 1, CF_CHECKPT_INTERVAL);
      assert Path(a)[..h + 1][k] == Path(b)[..h + 1][k];
    }
  }

  lemma MultipleBelow(i: nat, j: nat, interval: nat)
    requires i <= j
    ensures 0 <= Multiple(i, interval) <= Multiple(j, interval)
  {
    MulMonotone(i, j, interval);
  }

  /** What lies below the fork is in the cache and right for the requested branch too. */
  lemma CachedPart(headerOf: Headers, index: Index, stop: BlockNode, cache: seq<KeyValue>)
    requires Known(index, stop) && ZERO_HASH !in index && Sound(headerOf, cache, index)
    ensures var f := Fork(cache, Interval(stop));
            f <= |cache| && forall i | 0 <= i < f :: cache[i] == EntryOf(headerOf, Interval(stop)[i])
  {
    hide Path, Linked, Multiple, ForkFrom;
    var hashes := Interval(stop);
    var f := Fork(cache, hashes);
    if f > 0 {
      IntervalIndexed(index, stop, f - 1);
      var h :| h in index && CacheOf(headerOf, cache, index[h]);
      MatchIsPrefix(index, index[h], stop, f - 1);
      forall i | 0 <= i < f ensures cache[i] == EntryOf(headerOf, hashes[i]) {
        assert Interval(index[h])[..f][i] == hashes[..f][i];
      }
    }
  }

  lemma IntervalIndexed(index: Index, n: BlockNode, i: nat)
    requires Known(index, n) && i < |Interval(n)|
    ensures Interval(n)[i] in index
  {
    hide Path, Linked, Multiple;
    MultipleBound(i + 1, CF_CHECKPT_INTERVAL, n.height);
    AncestorsIndexed(index, n, Multiple(i + 1, CF_CHECKPT_INTERVAL));
  }

  /** With a sound cache every answer is the one without a cache. */
  lemma SplicedIsUncached(headerOf: Headers, index: Index, stop: BlockNode, cache: seq<KeyValue>)
    requires Known(index, stop) && ZERO_HASH !in index && Sound(headerOf, cache, index)
    ensures Spliced(headerOf, cache, Interval(stop)) == Uncached(headerOf, Interval(stop))
  {
    hide Sound, IntervalHashes, Fork;
    CachedPart(headerOf, index, stop, cache);
    var hashes := Interval(stop);
    forall i | 0 <= i < |hashes| ensures Spliced(headerOf, cache, hashes)[i] == headerOf(hashes[i]) {
      if i < Fork(cache, hashes) { assert Grown(cache, |hashes|)[i] == cache[i]; }
    }
  }

  /** The first entries of a branch are those of the block that is the last of them. */
  lemma Shortened(headerOf: Headers, index: Index, stop: BlockNode, cache: seq<KeyValue>)
    requires Known(index, stop) && 0 < |cache| <= |Interval(stop)|
    requires forall i | 0 <= i < |cache| :: cache[i] == EntryOf(headerOf, Interval(stop)[i])
    ensures Sound(headerOf, cache, index)
  {
    hide Path, Linked, Multiple;
    var h := Multiple(|cache|, CF_CHECKPT_INTERVAL);
    MultipleBound(|cache|, CF_CHECKPT_INTERVAL, stop.height);
    AncestorsIndexed(index, stop, h);
    PathOfPath(stop, h);
    var n := Path(stop)[h];
    ExactMultiple(|cache|);
    forall i | 0 <= i < |cache| ensures Interval(n)[i] == Interval(stop)[i] {
      MultipleBelow(i + 1, |cache|, CF_CHECKPT_INTERVAL);
      var k := Multiple(i + 1, CF_CHECKPT_INTERVAL);
      assert Path(stop)[..h + 1][k] == Path(stop)[k];
    }
    assert CacheOf(headerOf, cache, index[n.hash]);
  }

  lemma ExactMultiple(i: nat)
    ensures Multiple(i, CF_CHECKPT_INTERVAL) / CF_CHECKPT_INTERVAL == i
  {
  }

  /** Entries of the requested branch written over part of a sound cache leave it sound exactly
      when they are none or reach its end. */
  lemma OverlaidSoundIff(headerOf: Headers, index: Index, stop: BlockNode, cache: seq<KeyValue>, m: nat)
    requires Known(index, stop) && ZERO_HASH !in index && Sound(headerOf, cache, index)
    requires |cache| < |Interval(stop)| && Fork(cache, Interval(stop)) <= m <= |Interval(stop)|
    ensures var f := Fork(cache, Interval(stop));
            Sound(headerOf, Overlaid(headerOf, cache, Interval(stop), f, m), index) <==> !(f < m < |cache|)
  {
    hide Sound, IntervalHashes, Fork;
    var hashes := Interval(stop);
    var f := Fork(cache, hashes);
    var mixed := Overlaid(headerOf, cache, hashes, f, m);
    CachedPart(headerOf, index, stop, cache);
    if f >= m || f >= |cache| {
      assert mixed == cache;
    } else if m >= |cache| {
      Shortened(headerOf, index, stop, mixed);
    } else {
      ForkDiffers(cache, hashes, f);
      MixedUnsound(headerOf, index, cache, mixed, f);
    }
  }

  lemma ForkDiffers(cache: seq<KeyValue>, hashes: seq<BlockHash>, i: nat)
    requires Fork(cache, hashes) <= i < |hashes| && i < |cache|
    ensures cache[i].blockHash != hashes[i]
  {
  }

  /** A cache is determined by its last entry. */
  lemma SameLast(headerOf: Headers, index: Index, cache: seq<KeyValue>, a: BlockNode, mixed: seq<KeyValue>, b: BlockNode)
    requires Known(index, a) && Known(index, b) && CacheOf(headerOf, cache, a) && CacheOf(headerOf, mixed, b)
    requires |cache| == |mixed| > 0 && cache[|cache| - 1] == mixed[|cache| - 1]
    ensures cache == mixed
  {
    hide IntervalHashes;
    var n := |cache|;
    MatchIsPrefix(index, a, b, n - 1);
    assert Interval(a)[..n] == Interval(a) && Interval(b)[..n] == Interval(b);
  }

  lemma MixedUnsound(headerOf: Headers, index: Index, cache: seq<KeyValue>, mixed: seq<KeyValue>, f: nat)
    requires IndexOk(index) && Sound(headerOf, cache, index) && |mixed| == |cache| && f < |cache| - 1
    requires mixed[f] != cache[f] && mixed[|cache| - 1] == cache[|cache| - 1]
    ensures !Sound(headerOf, mixed, index)
  {
    hide CacheOf;
    var h :| h in index && CacheOf(headerOf, cache, index[h]);
    if Sound(headerOf, mixed, index) {
      var g :| g in index && CacheOf(headerOf, mixed, index[g]);
      SameLast(headerOf, index, cache, index[h], mixed, index[g]);
    }
  }

  /** What a request gets and leaves, for a sound cache. */
  lemma AnswerIsRight(headerOf: Headers, index: Index, stop: BlockNode, cache: seq<KeyValue>, capacity: nat,
                      present: set<BlockHash>, fetched: bool)
    requires Known(index, stop) && ZERO_HASH !in index
    ensures Sound(headerOf, cache, index) ==>
              && Spliced(headerOf, cache, Interval(stop)) == Uncached(headerOf, Interval(stop))
              && (Sound(headerOf, Left(headerOf, cache, capacity, Interval(stop), present, fetched), index)
                  <==> !Spoils(cache, capacity, Interval(stop), present, fetched))
  {
    hide Sound, IntervalHashes, Fork, Missing, Spliced, Uncached;
    if Sound(headerOf, cache, index) {
      SplicedIsUncached(headerOf, index, stop, cache);
      var hashes := Interval(stop);
      var f := Fork(cache, hashes);
      var m := Missing(hashes, present, f);
      OverlaidOrKept(headerOf, index, stop, cache, m);
    }
  }

  lemma OverlaidOrKept(headerOf: Headers, index: Index, stop: BlockNode, cache: seq<KeyValue>, m: nat)
    requires Known(index, stop) && ZERO_HASH !in index && Sound(headerOf, cache, index)
    requires Fork(cache, Interval(stop)) <= m <= |Interval(stop)|
    ensures var f, hashes := Fork(cache, Interval(stop)), Interval(stop);
            |hashes| > |cache| ==>
              && (Sound(headerOf, Overlaid(headerOf, cache, hashes, f, m), index) <==> !(f < m < |cache|))
              && (m == |hashes| ==> Sound(headerOf, Overlaid(headerOf, Grown(cache, |hashes|), hashes, f, m), index))
  {
    hide Sound, IntervalHashes, Fork;
    var f, hashes := Fork(cache, Interval(stop)), Interval(stop);
    if |hashes| > |cache| {
      OverlaidSoundIff(headerOf, index, stop, cache, m);
      if m == |hashes| {
        CachedPart(headerOf, index, stop, cache);
        Shortened(headerOf, index, stop, Overlaid(headerOf, Grown(cache, |hashes|), hashes, f, m));
      }
    }
  }

  /** Asking a spoiled cache for the old branch again: the last entry still matches, so the
      answer repeats the overwritten entries, and is right only if their headers agree. */
  lemma SpoiledAnswer(headerOf: Headers, index: Index, before: BlockNode, stop: BlockNode, cache: seq<KeyValue>, m: nat)
    requires Known(index, before) && Known(index, stop) && ZERO_HASH !in index && CacheOf(headerOf, cache, before)
    requires |cache| < |Interval(stop)| && Fork(cache, Interval(stop)) < m < |cache|
    ensures var f, mixed := Fork(cache, Interval(stop)), Overlaid(headerOf, cache, Interval(stop), Fork(cache, Interval(stop)), m);
            Spliced(headerOf, mixed, Interval(before)) == Uncached(headerOf, Interval(before)) <==>
              forall i | f <= i < m :: headerOf(Interval(stop)[i]) == headerOf(Interval(before)[i])
  {
    hide IntervalHashes, Fork;
    var f, hashes := Fork(cache, Interval(stop)), Interval(before);
    var mixed := Overlaid(headerOf, cache, Interval(stop), f, m);
    WholeMatch(mixed, hashes);
    assert Grown(mixed, |hashes|) == mixed;
    var s, u := Spliced(headerOf, mixed, hashes), Uncached(headerOf, hashes);
    assert forall i | 0 <= i < |hashes| :: s[i] == mixed[i].filterHeader;
    assert forall i | 0 <= i < |hashes| && !(f <= i < m) :: s[i] == u[i];
    assert forall i | f <= i < m :: s[i] == headerOf(Interval(stop)[i]) && u[i] == headerOf(hashes[i]);
    if s == u {
      forall i | f <= i < m ensures headerOf(Interval(stop)[i]) == headerOf(hashes[i]) { assert s[i] == u[i]; }
    }
  }

  /** For instance: four cached entries, room for a fifth, and a request for a branch that
      leaves after the second and lacks the header of its fourth. */
  lemma SpoiledExample(headerOf: Headers, index: Index, a: BlockNode, b: BlockNode, cache: seq<KeyValue>,
                       capacity: nat, present: set<BlockHash>)
    requires Known(index, a) && Known(index, b) && ZERO_HASH !in index && CacheOf(headerOf, cache, a) && capacity >= 5
    requires Parted(headerOf, a, b) && Interval(b)[2] in present && Interval(b)[3] !in present
    ensures Fork(cache, Interval(b)) == 2 && Missing(Interval(b), present, 2) == 3
    ensures var left := Left(headerOf, cache, capacity, Interval(b), present, true);
            && left == cache[2 := EntryOf(headerOf, Interval(b)[2])]
            && Spliced(headerOf, left, Interval(a)) != Uncached(headerOf, Interval(a))
  {
    hide IntervalHashes, Known, Spliced, Uncached;
    var hashes := Interval(b);
    if Interval(a)[3] == hashes[3] { MatchIsPrefix(index, a, b, 3); }
    IntervalIndexed(index, b, 4);
    var work := Grown(cache, 5)[..5];
    assert ForkFrom(work, hashes, 5) == ForkFrom(work, hashes, 4) == ForkFrom(work, hashes, 3) == ForkFrom(work, hashes, 2) == 2;
    assert Missing(hashes, present, 2) == Missing(hashes, present, 3) == 3;
    assert Left(headerOf, cache, capacity, hashes, present, true) == cache[2 := EntryOf(headerOf, hashes[2])];
    SpoiledAnswer(headerOf, index, a, b, cache, 3);
  }

  lemma NoneMissing(hashes: seq<BlockHash>, present: set<BlockHash>, i: nat)
    requires i <= |hashes| && forall h | h in hashes :: h in present
    ensures Missing(hashes, present, i) == |hashes|
  {
  }

  lemma FirstCache(headerOf: Headers, index: Index, n: BlockNode, present: set<BlockHash>)
    requires Known(index, n) && ZERO_HASH !in index && |Interval(n)| > 0 && forall h | h in Interval(n) :: h in present
    ensures CacheOf(headerOf, Left(headerOf, [], 0, Interval(n), present, true), n)
  {
    hide IntervalHashes, Fork, Missing, IndexOk, Linked;
    CachedPart(headerOf, index, n, []);
    NoneMissing(Interval(n), present, 0);
  }

  lemma PartedLengths(headerOf: Headers, a: BlockNode, b: BlockNode)
    requires Parted(headerOf, a, b)
    ensures Linked(a) && Linked(b) && |Interval(a)| == 4 && |Interval(b)| == 5
  {
  }

  lemma ReadyKnown(index: Index, view: ChainView, h: BlockHash)
    requires Ready(index, view) && h in index
    ensures Known(index, index[h])
  {
  }

  /** Branches of four and five entries that share two, with different headers after these. */
  ghost predicate Parted(headerOf: Headers, a: BlockNode, b: BlockNode) {
    && Linked(a) && Linked(b) && |Interval(a)| == 4 && |Interval(b)| == 5
    && Interval(a)[1] == Interval(b)[1] && Interval(a)[2] != Interval(b)[2]
    && headerOf(Interval(a)[2]) != headerOf(Interval(b)[2])
  }

  lemma WholeMatch(cache: seq<KeyValue>, hashes: seq<BlockHash>)
    requires |cache| == |hashes| > 0 && cache[|cache| - 1].blockHash == hashes[|cache| - 1]
    ensures Fork(cache, hashes) == |hashes|
  {
  }

  lemma EmptySound(headerOf: Headers, index: Index)
    ensures Sound(headerOf, [], index)
  {
  }

  lemma EmptyGrows()
    ensures forall r: Request :: Grows(map[], r.index)
  {
  }

  /** A request that lacks no header spoils nothing. */
  lemma CompleteNeverSpoils(r: Request, s: Slice)
    requires r.Complete()
    ensures !r.SpoilsAt(s)
  {
    hide IntervalHashes, Fork;
  }

  lemma UnspoiledNext(requests: seq<Request>, trail: seq<Slice>, n: nat)
    requires n < |requests| && n < |trail|
    ensures Unspoiled(requests, trail, n + 1) <==> Unspoiled(requests, trail, n) && !requests[n].SpoilsAt(trail[n])
  {
    hide Request.SpoilsAt;
  }

  lemma UnspoiledAll(requests: seq<Request>, trail: seq<Slice>)
    requires |requests| <= |trail|
    ensures Unspoiled(requests, trail, |requests|) <==> forall i | 0 <= i < |requests| :: !requests[i].SpoilsAt(trail[i])
    ensures Unspoiled(requests, trail, |requests|) ==> forall i | 0 <= i < |requests| :: Unspoiled(requests, trail, i)
  {
    hide Request.SpoilsAt;
  }

  lemma Lengthened(requests: seq<Request>, trail: seq<Slice>, trail': seq<Slice>, n: nat)
    requires n <= |requests| && n <= |trail| && trail <= trail'
    ensures Unspoiled(requests, trail', n) <==> Unspoiled(requests, trail, n)
  {
    hide Request.SpoilsAt;
    assert forall i | 0 <= i < n :: trail'[i] == trail[i];
  }

  /** A growing index does not disturb the cache. */
  lemma GrowthKeepsCache(headerOf: Headers, cache: seq<KeyValue>, index: Index, index': Index)
    requires Sound(headerOf, cache, index) && Grows(index, index')
    ensures Sound(headerOf, cache, index')
  {
    hide CacheOf;
    if cache != [] {
      var h :| h in index && CacheOf(headerOf, cache, index[h]);
      assert h in index' && CacheOf(headerOf, cache, index'[h]);
    }
  }

  /** Below a block that is near the best chain its path is that of the best chain. */
  lemma NearPath(n: BlockNode, tip: BlockNode, h: nat)
    requires Linked(n) && Linked(tip) && NearBest(n, tip) && h < n.height
    ensures h <= tip.height && Path(n)[h] == Path(tip)[h]
  {
    hide Path, Linked;
    PathOfPath(n, n.height);
    var i :| 0 <= i < |Path(tip)| && Path(tip)[i] == n.parent;
    PathOfPath(tip, i);
    PathOfPath(n, n.height - 1);
    assert Path(n)[..n.height][h] == Path(n)[h];
    assert Path(tip)[..i + 1][h] == Path(tip)[h];
  }

  /** Between branches that part from the best chain only in their last block, no request spoils
      the cache, whatever headers are missing. */
  lemma NearNeverSpoils(headerOf: Headers, before: BlockNode, stop: BlockNode, tip: BlockNode, cache: seq<KeyValue>,
                        capacity: nat, present: set<BlockHash>, fetched: bool)
    requires Linked(tip) && Linked(stop) && NearBest(before, tip) && NearBest(stop, tip) && CacheOf(headerOf, cache, before)
    ensures !Spoils(cache, capacity, Interval(stop), present, fetched)
  {
    hide Fork, Missing, Path, Linked, Multiple;
    var hashes := Interval(stop);
    var k := |cache| - 1;
    if |cache| < |hashes| && k > 0 {
      var h := Multiple(k, CF_CHECKPT_INTERVAL);
      NextMultiple(k, before.height);
      NextMultiple(k, stop.height);
      NearPath(before, tip, h);
      NearPath(stop, tip, h);
      assert cache[k - 1].blockHash == hashes[k - 1];
      if Fork(cache, hashes) < k { ForkDiffers(cache, hashes, k - 1); }
    }
  }

  lemma NextMultiple(k: nat, height: nat)
    requires k < height / CF_CHECKPT_INTERVAL
    ensures 0 <= Multiple(k, CF_CHECKPT_INTERVAL) < height
  {
  }
}
