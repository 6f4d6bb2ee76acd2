/** Queries against the block index and the best chain view: what to send to a peer
    that sent a locator, and the hashes along a branch. */
module ChainQuery {
  import opened Bytes
  import opened ChainTree
  import opened ChainView
  import opened Locator
  import opened Options

  type Index = map<BlockHash, BlockNode>

  /** Nodes are indexed by their own hashes, together with all their ancestors. */
  ghost predicate IndexOk(index: Index) {
    forall h | h in index ::
      && index[h].hash == h && Linked(index[h])
      && (index[h].parent != null ==> index[h].parent.hash in index && index[index[h].parent.hash] == index[h].parent)
  }

  lemma {:induction false} AncestorsIndexed(index: Index, n: BlockNode, i: nat)
    requires IndexOk(index) && n.hash in index && index[n.hash] == n && i <= n.height
    ensures Linked(n) && Path(n)[i].hash in index && index[Path(n)[i].hash] == Path(n)[i]
    decreases n.height
  {
    if i < n.height { AncestorsIndexed(index, n.parent, i); }
  }

  /** The index, the view and the view's tip belong together. */
  ghost predicate Ready(index: Index, view: ChainView)
    reads view, view.buf
  {
    && IndexOk(index) && view.Valid() && 0 < view.len <= MAX_INT32 + 1
    && view.Tip().hash in index && index[view.Tip().hash] == view.Tip()
  }

  function Hashes(nodes: seq<BlockNode>): (r: seq<BlockHash>)
    ensures |r| == |nodes| && forall i | 0 <= i < |nodes| :: r[i] == nodes[i].hash
  {
    seq(|nodes|, i requires 0 <= i < |nodes| => nodes[i].hash)
  }

  /** The height of the first locator entry on the view's branch, or genesis. */
  ghost function FirstKnown(index: Index, nodes: seq<BlockNode>, locator: seq<BlockHash>): (a: nat)
    requires nodes != []
    ensures a < |nodes|
  {
    if locator == [] then 0
    else if OnBranch(index, nodes, locator[0]) then index[locator[0]].height
    else FirstKnown(index, nodes, locator[1..])
  }

  ghost predicate OnBranch(index: Index, nodes: seq<BlockNode>, hash: BlockHash) {
    hash in index && 0 <= index[hash].height < |nodes| && nodes[index[hash].height] == index[hash]
  }

  /** The end of the run to send: at the stop block if it is ahead, at the tip otherwise, and no more than `max` blocks. */
  ghost function RunEnd(index: Index, nodes: seq<BlockNode>, a: nat, hashStop: BlockHash, max: nat): (end: nat)
    requires a <= |nodes|
    ensures a <= end <= |nodes|
  {
    var end := if OnBranch(index, nodes, hashStop) && a <= index[hashStop].height then index[hashStop].height + 1 else |nodes|;
    if end - a > max then a + max else end
  }

  /** Being on the branch of a view means that the hash is one of those listed there. */
  lemma OnBranchIff(index: Index, view: ChainView, hash: BlockHash)
    requires Ready(index, view)
    ensures OnBranch(index, view.Nodes(), hash) <==> hash in Hashes(view.Nodes())
    ensures forall i | 0 <= i < view.len && view.Nodes()[i].hash == hash :: hash in index && index[hash].height == i
  {
    hide Path, Linked;
    var nodes, tip := view.Nodes(), view.Tip();
    forall i | 0 <= i < |nodes| && nodes[i].hash == hash
      ensures hash in index && index[hash] == nodes[i] && index[hash].height == i
    {
      AncestorsIndexed(index, tip, i);
      PathOfPath(tip, i);
    }
    if OnBranch(index, nodes, hash) { assert Hashes(nodes)[index[hash].height] == hash; }
  }

  /** The search starts from the first locator entry that the best chain lists, or from genesis. */
  lemma {:induction false} FirstKnownIs(index: Index, view: ChainView, locator: seq<BlockHash>)
    requires Ready(index, view)
    ensures var nodes := view.Nodes();
            var a := FirstKnown(index, nodes, locator);
            && (forall k, i | 0 <= k < |locator| && 0 <= i < |nodes| && locator[k] == nodes[i].hash
                              && (forall j | 0 <= j < k :: locator[j] !in Hashes(nodes)) :: a == i)
            && ((forall h | h in locator :: h !in Hashes(nodes)) ==> a == 0)
    decreases |locator|
  {
    hide IndexOk, Path, Linked, OnBranch;
    var nodes := view.Nodes();
    if locator != [] {
      OnBranchIff(index, view, locator[0]);
      FirstKnownIs(index, view, locator[1..]);
      forall k, i | 0 <= k < |locator| && 0 <= i < |nodes| && locator[k] == nodes[i].hash
                    && (forall j | 0 <= j < k :: locator[j] !in Hashes(nodes))
        ensures FirstKnown(index, nodes, locator) == i
      {
        assert Hashes(nodes)[i] == locator[k];
        if k > 0 {
          assert locator[1..][k - 1] == locator[k];
          assert forall j | 0 <= j < k - 1 :: locator[1..][j] == locator[j + 1];
        }
      }
    }
  }

  /** How long the run is: up to the stop block if that is listed from height `a` on, up to the
      tip otherwise, and no longer than `max`. */
  lemma RunLength(index: Index, view: ChainView, a: nat, hashStop: BlockHash, max: nat)
    requires Ready(index, view) && a <= view.len
    ensures var nodes := view.Nodes();
            var total := RunEnd(index, nodes, a, hashStop, max) - a;
            && (forall i | a <= i < |nodes| && nodes[i].hash == hashStop :: total == Lesser(i - a + 1, max))
            && ((forall i | a <= i < |nodes| :: nodes[i].hash != hashStop) ==> total == Lesser(|nodes| - a, max))
  {
    hide Ready, Hashes;
    OnBranchIff(index, view, hashStop);
  }

  function Lesser(a: int, b: int): (r: int)
    ensures r <= a && r <= b && (r == a || r == b)
  {
    if a < b then a else b
  }

  method LocateInventory(index: Index, view: ChainView, locator: seq<BlockHash>, hashStop: BlockHash, maxEntries: nat)
    returns (start: BlockNode?, total: nat)
    requires Ready(index, view)
    ensures total <= maxEntries || locator == []
    ensures locator == [] && hashStop !in index ==> start == null && total == 0
    ensures locator == [] && hashStop in index ==> start == index[hashStop] && total == 1
    ensures locator != [] ==>
              var nodes := view.Nodes();
              var a := FirstKnown(index, nodes, locator) + 1;
              && (a == |nodes| ==> start == null && total == 0)
              && (a < |nodes| ==>
                    start == nodes[a] && total == RunEnd(index, nodes, a, hashStop, maxEntries) - a)
    ensures locator != [] && start != null ==>
              var nodes := view.Nodes();
              && 0 < start.height < |nodes|
              && (forall i | start.height <= i < |nodes| && nodes[i].hash == hashStop :: total == Lesser(i - start.height + 1, maxEntries))
              && ((forall i | start.height <= i < |nodes| :: nodes[i].hash != hashStop) ==>
                    total == Lesser(|nodes| - start.height, maxEntries))
  {
    hide Path, Linked, IndexOk, Hashes, FirstKnown, RunEnd, Lesser;
    start, total := FindInventory(index, view, locator, hashStop, maxEntries);
    if locator != [] && start != null {
      ghost var a := FirstKnown(index, view.Nodes(), locator) + 1;
      PathOfPath(view.Tip(), a);
      RunLength(index, view, a, hashStop, maxEntries);
    }
  }

  method FindInventory(index: Index, view: ChainView, locator: seq<BlockHash>, hashStop: BlockHash, maxEntries: nat)
    returns (start: BlockNode?, total: nat)
    requires Ready(index, view)
    ensures total <= maxEntries || locator == []
    ensures locator == [] && hashStop !in index ==> start == null && total == 0
    ensures locator == [] && hashStop in index ==> start == index[hashStop] && total == 1
    ensures locator != [] ==>
              var nodes := view.Nodes();
              var a := FirstKnown(index, nodes, locator) + 1;
              && (a == |nodes| ==> start == null && total == 0)
              && (a < |nodes| ==>
                    start == nodes[a] && total == RunEnd(index, nodes, a, hashStop, maxEntries) - a)
  {
    hide Path, Linked, IndexOk;
    var stopNode: BlockNode? := if hashStop in index then index[hashStop] else null;
    if |locator| == 0 {
      if stopNode == null { return null, 0; }
      return stopNode, 1;
    }
    var startNode := view.Genesis();
    GenesisHeight(view);
    var k := 0;
    ghost var nodes := view.Nodes();
    ghost var a := FirstKnown(index, nodes, locator);
    assert locator[0..] == locator;
    while k < |locator|
      invariant 0 <= k <= |locator| && a == FirstKnown(index, nodes, locator[k..])
    {
      assert locator[k..][1..] == locator[k + 1..];
      if locator[k] in index && view.Contains(index[locator[k]]) {
        startNode := index[locator[k]];
        break;
      }
      k := k + 1;
    }
    assert startNode == nodes[a] && startNode.height == a;
    startNode := view.Next(startNode);
    if startNode == null { return null, 0; }
    PathOfPath(view.Tip(), a + 1);
    total := view.Tip().height - startNode.height + 1;
    if stopNode != null && view.Contains(stopNode) && stopNode.height >= startNode.height {
      total := stopNode.height - startNode.height + 1;
    }
    if total > maxEntries { total := maxEntries; }
    return startNode, total;
  }

  lemma GenesisHeight(view: ChainView)
    requires view.Valid() && view.len > 0
    ensures view.Nodes()[0].height == 0
  {
    PathOfPath(view.Tip(), 0);
  }

  /** The hashes to send: a contiguous run of the best chain after the first known
      locator entry, or the requested block if there is no locator.  The run ends with the
      stop block, at the tip or at the limit. */
  method LocateBlocks(index: Index, view: ChainView, locator: seq<BlockHash>, hashStop: BlockHash, maxHashes: nat)
    returns (hashes: seq<BlockHash>)
    requires Ready(index, view)
    ensures locator == [] ==> hashes == if hashStop in index then [index[hashStop].hash] else []
    ensures locator != [] ==>
              var nodes := view.Nodes();
              var a := FirstKnown(index, nodes, locator) + 1;
              && hashes == Hashes(nodes[a..RunEnd(index, nodes, a, hashStop, maxHashes)])
              && (forall i | a <= i < |nodes| && nodes[i].hash == hashStop ::
                    && |hashes| == Lesser(i - a + 1, maxHashes)
                    && (i - a + 1 <= maxHashes ==> hashes[|hashes| - 1] == hashStop))
              && ((forall i | a <= i < |nodes| :: nodes[i].hash != hashStop) ==> |hashes| == Lesser(|nodes| - a, maxHashes))
  {
    hide Path, Linked, IndexOk, FirstKnown, RunEnd, Hashes, Lesser;
    hashes := LocateRun(index, view, locator, hashStop, maxHashes);
    if locator != [] { RunIs(index, view, FirstKnown(index, view.Nodes(), locator) + 1, hashStop, maxHashes); }
  }

  lemma RunIs(index: Index, view: ChainView, a: nat, hashStop: BlockHash, max: nat)
    requires Ready(index, view) && a <= view.len
    ensures var nodes := view.Nodes();
            var hashes := Hashes(nodes[a..RunEnd(index, nodes, a, hashStop, max)]);
            && (forall i | a <= i < |nodes| && nodes[i].hash == hashStop ::
                  && |hashes| == Lesser(i - a + 1, max)
                  && (i - a + 1 <= max ==> hashes[|hashes| - 1] == hashStop))
            && ((forall i | a <= i < |nodes| :: nodes[i].hash != hashStop) ==> |hashes| == Lesser(|nodes| - a, max))
  {
    hide Ready, RunEnd;
    RunLength(index, view, a, hashStop, max);
  }

  method LocateRun(index: Index, view: ChainView, locator: seq<BlockHash>, hashStop: BlockHash, maxHashes: nat)
    returns (hashes: seq<BlockHash>)
    requires Ready(index, view)
    ensures locator == [] ==> hashes == if hashStop in index then [index[hashStop].hash] else []
    ensures locator != [] ==>
              var nodes := view.Nodes();
              var a := FirstKnown(index, nodes, locator) + 1;
              hashes == Hashes(nodes[a..RunEnd(index, nodes, a, hashStop, maxHashes)])
  {
    hide Path, Linked, IndexOk, FirstKnown, RunEnd, Lesser;
    var start, total := LocateInventory(index, view, locator, hashStop, maxHashes);
    if total == 0 {
      return [];
    }
    if |locator| == 0 {
      hashes := CollectFrom(view, start, 1, []);
      return;
    }
    ghost var a := FirstKnown(index, view.Nodes(), locator) + 1;
    PathOfPath(view.Tip(), a);
    hashes := CollectFrom(view, start, total, view.Nodes()[a..a + total]);
  }

  /** Follows the view for `total` nodes; the node after the last one is never read. */
  method CollectFrom(view: ChainView, start: BlockNode, total: nat, ghost run: seq<BlockNode>) returns (hashes: seq<BlockHash>)
    requires view.Valid() && total > 0
    requires run == [] ==> total == 1
    requires run != [] ==> |run| == total && run[0] == start && 0 <= start.height && start.height + total <= view.len
                           && run == view.Nodes()[start.height..start.height + total]
    ensures hashes == if run == [] then [start.hash] else Hashes(run)
  {
    hide Path, Linked;
    hashes := [];
    var node: BlockNode? := start;
    var i := 0;
    while i < total
      invariant 0 <= i <= total && |hashes| == i
      invariant i < total ==> node != null && (i > 0 ==> run != []) && node == if run == [] then start else run[i]
      invariant forall j | 0 <= j < i :: hashes[j] == if run == [] then start.hash else run[j].hash
    {
      hashes := hashes + [node.hash];
      if run != [] { PathOfPath(view.Tip(), start.height + i); }
      node := view.Next(node);
      i := i + 1;
    }
  }

  /** A hash commits to all ancestors: a block of the peer's branch that is in the
      index has the same ancestors there. */
  ghost predicate Agrees(index: Index, peer: seq<BlockHash>) {
    forall i | 0 <= i < |peer| && peer[i] in index ::
      Linked(index[peer[i]]) && Hashes(Path(index[peer[i]])) == peer[..i + 1]
  }

  /** `f` is the height of the last block two branches share. */
  ghost predicate SharedUpTo(nodes: seq<BlockNode>, peer: seq<BlockHash>, f: nat) {
    && f < |nodes| && f < |peer| && Hashes(nodes[..f + 1]) == peer[..f + 1]
    && (f + 1 < |nodes| && f + 1 < |peer| ==> nodes[f + 1].hash != peer[f + 1])
  }

  /** The locator of the last block of a branch. */
  ghost predicate LocatorOf(peer: seq<BlockHash>, locator: seq<BlockHash>)
    requires peer != []
  {
    && IsLength(|peer| - 1, |locator|)
    && forall k | 0 <= k < |locator| :: EntryHeight(|peer| - 1, k) < |peer| && locator[k] == peer[EntryHeight(|peer| - 1, k)]
  }

  /** A block of the peer's branch is on ours exactly when it is shared. */
  lemma SharedIffOnBranch(index: Index, view: ChainView, peer: seq<BlockHash>, f: nat, i: nat)
    requires Ready(index, view) && Agrees(index, peer) && SharedUpTo(view.Nodes(), peer, f) && i < |peer|
    ensures OnBranch(index, view.Nodes(), peer[i]) <==> i <= f
    ensures i <= f ==> index[peer[i]].height == i
  {
    hide Path, Linked, Agrees, IndexOk;
    if i <= f {
      SharedOnBranch(index, view, peer, f, i);
    } else if OnBranch(index, view.Nodes(), peer[i]) {
      NotShared(index, view, peer, f, i);
    }
  }

  lemma SharedOnBranch(index: Index, view: ChainView, peer: seq<BlockHash>, f: nat, i: nat)
    requires Ready(index, view) && SharedUpTo(view.Nodes(), peer, f) && i <= f
    ensures OnBranch(index, view.Nodes(), peer[i]) && index[peer[i]].height == i
  {
    hide Path, Linked, IndexOk;
    var nodes, tip := view.Nodes(), view.Tip();
    assert peer[i] == peer[..f + 1][i] == nodes[i].hash;
    AncestorsIndexed(index, tip, i);
    PathOfPath(tip, i);
  }

  lemma NotShared(index: Index, view: ChainView, peer: seq<BlockHash>, f: nat, i: nat)
    requires Ready(index, view) && Agrees(index, peer) && SharedUpTo(view.Nodes(), peer, f) && f < i < |peer|
    ensures !OnBranch(index, view.Nodes(), peer[i])
  {
    hide Path, Linked, IndexOk;
    if OnBranch(index, view.Nodes(), peer[i]) {
      var x := index[peer[i]];
      assert |Hashes(Path(x))| == i + 1;
      PathOfPath(view.Tip(), x.height);
      assert false;
    }
  }

  lemma {:induction false} FirstKnownAt(index: Index, nodes: seq<BlockNode>, locator: seq<BlockHash>, k: nat)
    requires nodes != [] && k < |locator| && OnBranch(index, nodes, locator[k])
    requires forall j | 0 <= j < k :: !OnBranch(index, nodes, locator[j])
    ensures FirstKnown(index, nodes, locator) == index[locator[k]].height
    decreases k
  {
    if k > 0 { FirstKnownAt(index, nodes, locator[1..], k - 1); }
  }

  /** The entry the search stops at is close to the fork: on it if the peer is at
      most eleven blocks past it, and fewer blocks below it than the peer is past
      it, less nine, otherwise. */
  lemma StopsNearFork(h: nat, d: nat, k: nat)
    requires d <= h && Back(k) >= d && (k > 0 ==> Back(k - 1) < d)
    ensures var a := EntryHeight(h, k); a <= h - d && if d <= 11 then a == h - d else h - d - a < d - 9
  {
    Pow2Small();
    if k > 11 { BackGrows(11, k); }
  }

  /** The first matching entry of a peer's locator: never above the fork, and near it. */
  lemma PeerStart(index: Index, view: ChainView, peer: seq<BlockHash>, locator: seq<BlockHash>, f: nat)
    requires Ready(index, view) && Agrees(index, peer) && SharedUpTo(view.Nodes(), peer, f) && LocatorOf(peer, locator)
    ensures var a, d := FirstKnown(index, view.Nodes(), locator), |peer| - 1 - f;
            a <= f && if d <= 11 then a == f else f - a < d - 9
  {
    hide Path, Linked, IndexOk, FirstKnown, Back, OnBranch, IsLength;
    var h, d := |peer| - 1, |peer| - 1 - f;
    var k := FirstBack(d, h, |locator|);
    StopsNearFork(h, d, k);
    forall j | 0 <= j <= k ensures OnBranch(index, view.Nodes(), locator[j]) <==> EntryHeight(h, j) <= f {
      SharedIffOnBranch(index, view, peer, f, EntryHeight(h, j));
    }
    SharedIffOnBranch(index, view, peer, f, EntryHeight(h, k));
    forall j | 0 <= j < k ensures EntryHeight(h, j) > f {
      BackGrowsTo(j, k - 1);
    }
    FirstKnownAt(index, view.Nodes(), locator, k);
  }

  lemma BackGrowsTo(j: nat, k: nat)
    requires j <= k
    ensures Back(j) <= Back(k)
  {
    if j < k { BackGrows(j, k); }
  }

  /** The first locator entry at least `d` blocks back. */
  lemma FirstBack(d: nat, h: nat, len: nat) returns (k: nat)
    requires d <= h && IsLength(h, len)
    ensures k < len && Back(k) >= d && (k > 0 ==> Back(k - 1) < d)
  {
    k := 0;
    while Back(k) < d
      invariant k < len && (k > 0 ==> Back(k - 1) < d)
      decreases len - k
    {
      k := k + 1;
    }
  }

  /** Answering a peer that shares our genesis: the run starts no later than its
      first missing block and repeats few of the blocks it has. */
  method AnswerPeer(index: Index, view: ChainView, ghost peer: seq<BlockHash>, locator: seq<BlockHash>, hashStop: BlockHash,
                    maxHashes: nat, ghost f: nat) returns (hashes: seq<BlockHash>)
    requires Ready(index, view) && Agrees(index, peer) && SharedUpTo(view.Nodes(), peer, f) && LocatorOf(peer, locator)
    ensures var nodes, d := view.Nodes(), |peer| - 1 - f;
            var a := FirstKnown(index, nodes, locator) + 1;
            && hashes == Hashes(nodes[a..RunEnd(index, nodes, a, hashStop, maxHashes)])
            && a <= f + 1 && if d <= 11 then a == f + 1 else f + 1 - a < d - 9
  {
    hide Path, Linked, IndexOk, FirstKnown, RunEnd, Agrees;
    PeerStart(index, view, peer, locator, f);
    hashes := LocateBlocks(index, view, locator, hashStop, maxHashes);
  }

  /** What `BlockLocator` builds for a node is the locator of that node's branch. */
  lemma BuiltLocator(n: BlockNode, locator: seq<BlockHash>)
    requires Linked(n) && IsLocator(n, locator)
    ensures LocatorOf(Hashes(Path(n)), locator)
  {
  }

  /** A peer asks with the locator of one of its nodes and is answered from our index and view. */
  method ServePeer(index: Index, view: ChainView, peerView: ChainView, peerNode: BlockNode, hashStop: BlockHash,
                   maxHashes: nat, ghost f: nat) returns (hashes: seq<BlockHash>)
    requires Ready(index, view) && peerView.Valid() && peerView.len <= MAX_INT32 + 1
    requires Linked(peerNode) && peerNode.height <= MAX_INT32
    requires Agrees(index, Hashes(Path(peerNode))) && SharedUpTo(view.Nodes(), Hashes(Path(peerNode)), f)
    ensures exists a: nat :: 1 <= a <= f + 1
              && hashes == Hashes(view.Nodes()[a..RunEnd(index, view.Nodes(), a, hashStop, maxHashes)])
              && var d := peerNode.height - f; if d <= 11 then a == f + 1 else f + 1 - a < d - 9
  {
    hide Agrees, SharedUpTo, LocatorOf, IsLocator, Path, Linked, RunEnd, FirstKnown, Ready;
    var locator, n := peerView.BlockLocator(peerNode);
    BuiltLocator(peerNode, locator);
    hashes := AnswerPeer(index, view, Hashes(Path(peerNode)), locator, hashStop, maxHashes, f);
  }

  /** All ancestors of the end block from a start height on, the end block included. */
  method HeightToHashRange(index: Index, startHeight: int, endHash: BlockHash, maxResults: int) returns (r: Option<seq<BlockHash>>)
    requires IndexOk(index)
    ensures r.Some? <==>
              && endHash in index && index[endHash].status.valid
              && 0 <= startHeight <= index[endHash].height && index[endHash].height - startHeight + 1 <= maxResults
    ensures r.Some? ==> r.value == Hashes(Path(index[endHash])[startHeight..])
  {
    if endHash !in index { return None; }
    var endNode := index[endHash];
    if !endNode.status.valid { return None; }
    var endHeight := endNode.height;
    if startHeight < 0 { return None; }
    if startHeight > endHeight { return None; }
    var resultsLength := endHeight - startHeight + 1;
    if resultsLength > maxResults { return None; }
    var node: BlockNode? := endNode;
    var hashes := new BlockHash[resultsLength](_ => ZERO_HASH);
    ghost var path := Path(endNode);
    var i := resultsLength - 1;
    while i >= 0
      invariant -1 <= i < resultsLength
      invariant i >= 0 ==> node == path[startHeight + i]
      invariant forall j | i < j < resultsLength :: hashes[j] == path[startHeight + j].hash
    {
      PathOfPath(endNode, startHeight + i);
      hashes[i] := node.hash;
      node := node.parent;
      i := i - 1;
    }
    return Some(hashes[..]);
  }

  /** The `i`th multiple of `interval`. */
  function Multiple(i: int, interval: nat): int {
    i * interval
  }

  lemma MultipleBound(i: nat, interval: nat, h: nat)
    requires interval > 0 && i <= h / interval
    ensures 0 <= Multiple(i, interval) <= h
  {
    MulMonotone(i, h / interval, interval);
    assert h / interval * interval <= h;
  }

  lemma MulMonotone(i: nat, j: nat, k: nat)
    requires i <= j
    ensures 0 <= i * k <= j * k
  {
  }

  /** The hash of the ancestor at a height. */
  ghost function HashAt(n: BlockNode, height: int): BlockHash
    requires Linked(n)
  {
    if 0 <= height <= n.height then Path(n)[height].hash else ZERO_HASH
  }

  /** The ancestors of a block at the positive multiples of `interval`. */
  ghost function IntervalHashes(n: BlockNode, interval: nat): (r: seq<BlockHash>)
    requires Linked(n) && interval > 0
    ensures n.height >= 0 && |r| == n.height / interval
    ensures forall i | 0 <= i < |r| :: r[i] == HashAt(n, Multiple(i + 1, interval))
  {
    assert |Path(n)| > 0;
    seq(n.height / interval, i requires 0 <= i < n.height / interval => HashAt(n, Multiple(i + 1, interval)))
  }

  method IntervalBlockHashes(index: Index, view: ChainView, endHash: BlockHash, interval: nat) returns (r: Option<seq<BlockHash>>)
    requires Ready(index, view) && interval > 0
    ensures r.Some? <==> endHash in index && index[endHash].status.valid
    ensures r.Some? ==> r.value == IntervalHashes(index[endHash], interval)
  {
    hide Path, Linked, Multiple, IntervalHashes;
    if endHash !in index { return None; }
    var endNode := index[endHash];
    if !endNode.status.valid { return None; }
    ghost var h: nat := |Path(endNode)| - 1;
    var n := endNode.height / interval;
    var hashes := new BlockHash[n](_ => ZERO_HASH);
    var blockNode := endNode;
    var i := n;
    MultipleBound(n, interval, h);
    while i > 0
      invariant 0 <= i <= n
      invariant Linked(blockNode) && Ancestor(blockNode, endNode) && 0 <= Multiple(i, interval) <= blockNode.height
      invariant forall j | i <= j < n :: hashes[j] == HashAt(endNode, Multiple(j + 1, interval))
    {
      var height := Multiple(i, interval);
      PathOfPath(endNode, blockNode.height);
      PathOfPath(endNode, height);
      blockNode := view.Earlier(blockNode, height);
      hashes[i - 1] := blockNode.hash;
      MultipleBound(i - 1, interval, h);
      MultipleGrows(i - 1, interval);
      i := i - 1;
    }
    return Some(hashes[..]);
  }

  /** Entry `i` is the ancestor at `i + 1` times the interval. */
  lemma IntervalAt(n: BlockNode, interval: nat, i: nat)
    requires Linked(n) && interval > 0 && n.height >= 0 && i < n.height / interval
    ensures 0 <= (i + 1) * interval <= n.height && IntervalHashes(n, interval)[i] == Path(n)[(i + 1) * interval].hash
  {
    hide Path, Linked, IntervalHashes;
    MultipleBound(i + 1, interval, n.height);
    assert Multiple(i + 1, interval) == (i + 1) * interval;
    assert IntervalHashes(n, interval)[i] == HashAt(n, Multiple(i + 1, interval));
  }

  lemma MultipleGrows(i: nat, interval: nat)
    ensures Multiple(i, interval) <= Multiple(i + 1, interval)
  {
  }
}
