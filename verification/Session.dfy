/** A node at work: it accepts blocks and answers getcfcheckpt requests in between.  As long
    as the best chain is never reorganised the cache behind the answers cannot be spoiled. */
module Session {
  import opened Bytes
  import opened ChainTree
  import opened ChainView
  import opened ChainQuery
  import opened Options
  import BlockIndex
  import opened Chain
  import Cf = CfCheckpoint

  datatype Event =
    | Accept(block: Block, steps: Steps)
    | Ask(current: bool, regular: bool, stopHash: BlockHash, present: set<BlockHash>, fetched: bool, spare: nat)

  type Reply = Option<seq<Cf.FilterHeader>>

  /** The indexed blocks that are near the best chain. */
  ghost function NearIndex(index: Index, tip: BlockNode): (near: Index)
    requires Linked(tip)
    ensures Cf.Grows(near, index)
  {
    map h | h in index && NearBest(index[h], tip) :: index[h]
  }

  /** They include their ancestors. */
  lemma NearIndexOk(index: Index, tip: BlockNode)
    requires IndexOk(index) && Linked(tip)
    ensures IndexOk(NearIndex(index, tip))
  {
    hide Path, Linked;
    var near := NearIndex(index, tip);
    forall h | h in near && near[h].parent != null
      ensures near[h].parent.hash in near && near[near[h].parent.hash] == near[h].parent
    {
      var i :| 0 <= i < |Path(tip)| && Path(tip)[i] == near[h].parent;
      PathOfPath(tip, i);
    }
  }

  /** They remain so as the best chain grows. */
  lemma NearGrows(index: Index, tip: BlockNode, index': Index, tip': BlockNode)
    requires Linked(tip) && Linked(tip') && Path(tip) <= Path(tip') && Cf.Grows(index, index')
    ensures Cf.Grows(NearIndex(index, tip), NearIndex(index', tip'))
  {
    hide Path, Linked;
  }

  /** The cache is that of a branch near the best chain. */
  ghost predicate Settled(headerOf: Cf.Headers, cache: seq<Cf.KeyValue>, index: Index, tip: BlockNode) {
    Linked(tip) && Cf.Sound(headerOf, cache, NearIndex(index, tip))
  }

  lemma SettledGrows(headerOf: Cf.Headers, cache: seq<Cf.KeyValue>, index: Index, tip: BlockNode, index': Index, tip': BlockNode)
    requires Settled(headerOf, cache, index, tip) && Linked(tip') && Path(tip) <= Path(tip') && Cf.Grows(index, index')
    ensures Settled(headerOf, cache, index', tip')
  {
    hide Path, Linked, Cf.Sound, Cf.Grows, NearIndex;
    NearGrows(index, tip, index', tip');
    Cf.GrowthKeepsCache(headerOf, cache, NearIndex(index, tip), NearIndex(index', tip'));
  }

  lemma SettledSound(headerOf: Cf.Headers, cache: seq<Cf.KeyValue>, index: Index, tip: BlockNode)
    requires Settled(headerOf, cache, index, tip)
    ensures Cf.Sound(headerOf, cache, index)
  {
    hide Path, Linked, Cf.Sound, Cf.Grows;
    Cf.GrowthKeepsCache(headerOf, cache, NearIndex(index, tip), index);
  }

  /** A request for a block near the best chain is answered rightly from a settled cache and
      leaves it settled. */
  lemma SettledAnswer(headerOf: Cf.Headers, cache: seq<Cf.KeyValue>, capacity: nat, index: Index, tip: BlockNode, stop: BlockNode,
                      present: set<BlockHash>, fetched: bool)
    requires Settled(headerOf, cache, index, tip) && Cf.Known(index, stop) && NearBest(stop, tip) && ZERO_HASH !in index
    ensures Cf.Spliced(headerOf, cache, Cf.Interval(stop)) == Cf.Uncached(headerOf, Cf.Interval(stop))
    ensures !Cf.Spoils(cache, capacity, Cf.Interval(stop), present, fetched)
    ensures Settled(headerOf, Cf.Left(headerOf, cache, capacity, Cf.Interval(stop), present, fetched), index, tip)
  {
    hide Path, Linked, Cf.CacheOf, Cf.Spliced, Cf.Uncached, Cf.Fork, Cf.Missing, Cf.Left, IntervalHashes, IndexOk, NearBest;
    var near := NearIndex(index, tip);
    NearIndexOk(index, tip);
    if cache != [] {
      var h :| h in near && Cf.CacheOf(headerOf, cache, near[h]);
      Cf.NearNeverSpoils(headerOf, near[h], stop, tip, cache, capacity, present, fetched);
    }
    Cf.AnswerIsRight(headerOf, near, stop, cache, capacity, present, fetched);
  }

  /** What the requests need of the chain. */
  lemma ChainReady(chain: BlockChain)
    requires chain.Valid()
    ensures Ready(chain.index, chain.bestChain)
  {
    hide Path, Linked, BlockChain.Narrow;
    chain.TipSound();
  }

  lemma ValidIsNear(chain: BlockChain, h: BlockHash)
    requires chain.Narrow() && h in chain.index && chain.index[h].status.valid
    ensures Cf.Known(chain.index, chain.index[h]) && NearBest(chain.index[h], chain.Tip())
  {
    chain.TreeIsOk();
  }

  /** One request. */
  method AskOne(chain: BlockChain, cf: Cf.Checkpoints, e: Event, ghost tip: BlockNode, ghost valid: set<BlockHash>) returns (reply: Reply)
    requires chain.Narrow() && tip == chain.Tip() && ZERO_HASH !in chain.index && cf.Valid() && e.Ask?
    requires Settled(cf.headerOf, cf.Cache(), chain.index, tip)
    requires forall h | h in valid :: h in chain.index && chain.index[h].status.valid
    modifies cf, cf.buf
    ensures chain.Valid() && chain.Narrow() && tip == chain.Tip()
    ensures cf.Valid() && (cf.buf == old(cf.buf) || fresh(cf.buf)) && Settled(cf.headerOf, cf.Cache(), chain.index, tip)
    ensures Right(cf.headerOf, chain.index, e, reply) && (Complete(chain.index, valid, e) ==> reply.Some?)
  {
    hide BlockChain.Narrow, BlockChain.Valid, BlockChain.Tip, Settled, Cf.Spliced, Cf.Uncached, Cf.Left, Cf.Fork, Cf.Missing,
         Cf.Sound, Cf.Spoils, Ready;
    NarrowValid(chain);
    ChainReady(chain);
    if e.stopHash in chain.index && chain.index[e.stopHash].status.valid {
      ValidIsNear(chain, e.stopHash);
      SettledAnswer(cf.headerOf, cf.Cache(), cf.buf.Length, chain.index, tip, chain.index[e.stopHash], e.present, e.fetched);
      ghost var hashes := Cf.Interval(chain.index[e.stopHash]);
      if Complete(chain.index, valid, e) { Cf.NoneMissing(hashes, e.present, Cf.Fork(cf.Cache(), hashes)); }
    }
    reply := cf.OnGetCFCheckpt(chain.index, chain.bestChain, e.current, e.regular, e.stopHash, e.present, e.fetched, e.spare);
  }

  lemma NarrowValid(chain: BlockChain)
    requires chain.Narrow()
    ensures chain.Valid()
  {
  }

  /** The answer to a request, if there is one, is the one without a cache. */
  ghost predicate Right(headerOf: Cf.Headers, index: Index, e: Event, reply: Reply) {
    reply.Some? ==>
      e.Ask? && e.stopHash in index && Linked(index[e.stopHash]) && reply.value == Cf.Uncached(headerOf, Cf.Interval(index[e.stopHash]))
  }

  /** The request is for one of the given validated blocks and no header is missing. */
  ghost predicate Complete(index: Index, valid: set<BlockHash>, e: Event) {
    && e.Ask? && e.stopHash in valid && e.current && e.regular && e.fetched && e.stopHash in index && Linked(index[e.stopHash])
    && forall h | h in Cf.Interval(index[e.stopHash]) :: h in e.present
  }

  /** All answers so far are right, and none is lacking that had to be given. */
  ghost predicate AllRight(headerOf: Cf.Headers, index: Index, valid: set<BlockHash>, events: seq<Event>, replies: seq<Reply>) {
    && |replies| <= |events|
    && forall i | 0 <= i < |replies| ::
         Right(headerOf, index, events[i], replies[i]) && (Complete(index, valid, events[i]) ==> replies[i].Some?)
  }

  lemma AllRightGrows(headerOf: Cf.Headers, index: Index, index': Index, valid: set<BlockHash>, events: seq<Event>, replies: seq<Reply>)
    requires AllRight(headerOf, index, valid, events, replies) && Cf.Grows(index, index') && forall h | h in valid :: h in index
    ensures AllRight(headerOf, index', valid, events, replies)
  {
    hide Cf.Uncached, Linked;
    forall i | 0 <= i < |replies|
      ensures Right(headerOf, index', events[i], replies[i]) && (Complete(index', valid, events[i]) ==> replies[i].Some?)
    {
      assert Complete(index', valid, events[i]) ==> Complete(index, valid, events[i]);
    }
  }

  lemma AllRightPush(headerOf: Cf.Headers, index: Index, valid: set<BlockHash>, events: seq<Event>, replies: seq<Reply>, reply: Reply)
    requires AllRight(headerOf, index, valid, events, replies) && |replies| < |events|
    requires Right(headerOf, index, events[|replies|], reply) && (Complete(index, valid, events[|replies|]) ==> reply.Some?)
    ensures AllRight(headerOf, index, valid, events, replies + [reply])
  {
    hide Right, Complete;
  }

  /** One block, passed over if it is indexed already. */
  method AcceptOne(chain: BlockChain, block: Block, steps: Steps, ghost tip: BlockNode, ghost n: nat)
    requires chain.Narrow() && tip == chain.Tip() && ZERO_HASH !in chain.index
    requires chain.params.hashOf(block.header) != ZERO_HASH && forall h | h in chain.index :: Room(chain.index[h].height + n + 1)
    modifies chain, chain.bestChain, chain.bestChain.buf
    ensures chain.Valid() && chain.Narrow() && ZERO_HASH !in chain.index
    ensures chain.bestChain.buf == old(chain.bestChain.buf) || fresh(chain.bestChain.buf)
    ensures Path(tip) <= Path(chain.Tip()) && Cf.Grows(old(chain.index), chain.index)
    ensures forall h | h in chain.index :: Room(chain.index[h].height + n)
  {
    hide BlockChain.Narrow, BlockChain.Valid, BlockChain.Tip, Path, Linked, Describes;
    NarrowValid(chain);
    if chain.params.hashOf(block.header) !in chain.index {
      var r := chain.MaybeAcceptBlock(block, steps);
    }
  }

  /** Every run from an empty cache: all answers are the ones without a cache, whichever headers
      were missing on the way, and the cache is that of one branch.  Requests for blocks that are
      `valid` from the start get an answer if no header is missing. */
  method Run(chain: BlockChain, cf: Cf.Checkpoints, events: seq<Event>, ghost valid: set<BlockHash>) returns (replies: seq<Reply>)
    requires chain.Narrow() && cf.Valid() && cf.Cache() == [] && ZERO_HASH !in chain.index
    requires forall h | h in chain.index :: Room(chain.index[h].height + |events|)
    requires forall h | h in valid :: h in chain.index && chain.index[h].status.valid
    requires forall e | e in events && e.Accept? :: chain.params.hashOf(e.block.header) != ZERO_HASH
    modifies chain, chain.bestChain, chain.bestChain.buf, cf, cf.buf
    ensures chain.Narrow() && cf.Valid() && Cf.Grows(old(chain.index), chain.index)
    ensures Cf.Sound(cf.headerOf, cf.Cache(), chain.index)
    ensures |replies| == |events| && AllRight(cf.headerOf, chain.index, valid, events, replies)
  {
    hide BlockChain.Narrow, BlockChain.Valid, BlockChain.Tip, Settled, Right, Complete, AllRight, Path, Linked, Cf.Sound, Cf.Grows;
    NarrowValid(chain);
    replies := [];
    ghost var tip := chain.Tip();
    StartOfRun(cf.headerOf, chain.index, tip, valid, events);
    for i := 0 to |events|
      invariant chain.Valid() && chain.Narrow() && tip == chain.Tip() && ZERO_HASH !in chain.index && cf.Valid()
      invariant chain.bestChain.buf == old(chain.bestChain.buf) || fresh(chain.bestChain.buf)
      invariant cf.buf == old(cf.buf) || fresh(cf.buf)
      invariant forall h | h in chain.index :: Room(chain.index[h].height + |events| - i)
      invariant forall h | h in valid :: h in chain.index && chain.index[h].status.valid
      invariant Settled(cf.headerOf, cf.Cache(), chain.index, tip) && Cf.Grows(old(chain.index), chain.index)
      invariant |replies| == i && AllRight(cf.headerOf, chain.index, valid, events, replies)
    {
      var reply := None;
      if events[i].Accept? {
        ghost var index, last := chain.index, tip;
        AcceptOne(chain, events[i].block, events[i].steps, tip, |events| - i - 1);
        tip := chain.Tip();
        SettledGrows(cf.headerOf, cf.Cache(), index, last, chain.index, tip);
        GrowsOn(old(chain.index), index, chain.index);
        AllRightGrows(cf.headerOf, index, chain.index, valid, events, replies);
        NoReply(cf.headerOf, chain.index, valid, events[i]);
      } else {
        reply := AskOne(chain, cf, events[i], tip, valid);
      }
      AllRightPush(cf.headerOf, chain.index, valid, events, replies, reply);
      replies := replies + [reply];
    }
    SettledSound(cf.headerOf, cf.Cache(), chain.index, tip);
  }

  lemma StartOfRun(headerOf: Cf.Headers, index: Index, tip: BlockNode, valid: set<BlockHash>, events: seq<Event>)
    requires Linked(tip)
    ensures Settled(headerOf, [], index, tip) && Cf.Grows(index, index) && AllRight(headerOf, index, valid, events, [])
  {
  }

  lemma GrowsOn(a: Index, b: Index, c: Index)
    requires Cf.Grows(a, b) && Cf.Grows(b, c)
    ensures Cf.Grows(a, c) && forall h | h in b :: h in c && c[h] == b[h]
  {
  }

  lemma NoReply(headerOf: Cf.Headers, index: Index, valid: set<BlockHash>, e: Event)
    requires e.Accept?
    ensures Right(headerOf, index, e, None) && !Complete(index, valid, e)
  {
  }
}
