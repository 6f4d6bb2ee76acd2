/** A flat view of one branch: the walk from its tip back to genesis, cached in a
    slice whose backing array is reused when the tip moves. */
module ChainView {
  import opened Bytes
  import opened ChainTree
  import opened Locator

  const NODES_PER_WEEK := 6 * 24 * 7

  class ChainView {
    /** The slice `nodes`: a backing array and the length in use. */
    var buf: array<BlockNode?>
    var len: nat

    ghost predicate Valid()
      reads this, buf
    {
      && len <= buf.Length
      && (len > 0 ==>
            && buf[len - 1] != null && Linked(buf[len - 1]) && buf[len - 1].height == len - 1
            && forall i | 0 <= i < len :: buf[i] == Path(buf[len - 1])[i])
    }

    /** The nodes of the view, from genesis to the tip. */
    ghost function Nodes(): (p: seq<BlockNode>)
      requires Valid()
      reads this, buf
      ensures |p| == len
      ensures forall i | 0 <= i < len :: p[i] == buf[i]
    {
      if len == 0 then [] else Path(buf[len - 1])
    }

    constructor ()
      ensures Valid() && len == 0 && fresh(buf)
    {
      buf := new BlockNode?[0];
      len := 0;
    }

    function Tip(): (t: BlockNode?)
      requires Valid()
      reads this, buf
      ensures t == null <==> len == 0
      ensures t != null ==> Linked(t) && Nodes() == Path(t)
    {
      if len == 0 then null else buf[len - 1]
    }

    function Genesis(): (g: BlockNode?)
      requires Valid()
      reads this, buf
      ensures g == if len == 0 then null else Nodes()[0]
    {
      if len == 0 then null else buf[0]
    }

    function NodeByHeight(height: int): (n: BlockNode?)
      requires Valid()
      reads this, buf
      ensures n == if 0 <= height < len then Nodes()[height] else null
    {
      if height < 0 || height >= len then null else buf[height]
    }

    predicate Contains(node: BlockNode)
      requires Valid()
      reads this, buf
    {
      NodeByHeight(node.height) == node
    }

    function Next(node: BlockNode?): (n: BlockNode?)
      requires Valid()
      reads this, buf
    {
      if node == null || !Contains(node) then null else NodeByHeight(node.height + 1)
    }

    /** Brings the slice to length `needed`, in a new array if the old one is too small. */
    method Resize(needed: nat)
      requires len <= buf.Length && needed + NODES_PER_WEEK <= MAX_INT32
      modifies this, buf
      ensures len == needed <= buf.Length && (buf == old(buf) || fresh(buf))
      ensures forall i | 0 <= i < needed :: buf[i] == if i < old(len) then old(buf[i]) else null
    {
      if buf.Length < needed {
        var nodes := new BlockNode?[needed + NODES_PER_WEEK](_ => null);
        forall i | 0 <= i < len { nodes[i] := buf[i]; }
        buf := nodes;
        len := needed;
      } else {
        var i := len;
        len := needed;
        while i < needed
          invariant old(len) <= i && (i <= needed || i == old(len))
          invariant buf == old(buf) && len == needed
          invariant forall j | 0 <= j < old(len) :: buf[j] == old(buf[j])
          invariant forall j | old(len) <= j < i :: buf[j] == null
        {
          buf[i] := null;
          i := i + 1;
        }
      }
    }

    /** Makes `node` the tip.  The walk stops at the first node already in place,
        yet leaves the whole walk of the new tip behind. */
    method SetTip(node: BlockNode?)
      requires Valid()
      requires node != null ==> Linked(node) && node.height + 1 + NODES_PER_WEEK <= MAX_INT32
      modifies this, buf
      ensures Valid() && (buf == old(buf) || fresh(buf))
      ensures if node == null then len == 0 else Tip() == node
    {
      if node == null {
        len := 0;
        return;
      }
      ghost var was, tip := Nodes(), Tip();
      Resize(node.height + 1);
      Walk(node, was, tip);
    }

    method Walk(node: BlockNode, ghost was: seq<BlockNode>, ghost tip: BlockNode?)
      requires Linked(node) && len == node.height + 1 <= buf.Length
      requires if tip == null then was == [] else Linked(tip) && was == Path(tip)
      requires forall i | 0 <= i < len :: buf[i] == if i < |was| then was[i] else null
      modifies buf
      ensures Valid() && Tip() == node
    {
      hide Path, Linked;
      ghost var path := Path(node);
      var n: BlockNode? := node;
      while n != null && buf[n.height] != n
        invariant n != null ==> 0 <= n.height < len && path[n.height] == n
        invariant forall i | (if n == null then 0 else n.height + 1) <= i < len :: buf[i] == path[i]
        invariant n != null ==> forall i | 0 <= i <= n.height :: buf[i] == if i < |was| then was[i] else null
        decreases if n == null then 0 else n.height + 1
      {
        PathOfPath(node, n.height);
        buf[n.height] := n;
        n := n.parent;
      }
      if n != null {
        PathOfPath(node, n.height);
        PathOfPath(tip, n.height);
        forall i | 0 <= i <= n.height ensures buf[i] == path[i] {
          assert was[..n.height + 1][i] == path[..n.height + 1][i];
        }
      }
    }

    /** The last node that the walk of `node` and the view have in common. */
    method FindFork(node: BlockNode?) returns (fork: BlockNode?)
      requires Valid() && (node != null ==> Linked(node))
      ensures node == null ==> fork == null
      ensures node != null ==> IsFork(Nodes(), Path(node), fork)
    {
      hide Path, Linked;
      if node == null { return null; }
      ghost var path := Path(node);
      fork := node;
      if fork.height > len - 1 {
        fork := AncestorAt(fork, len - 1);
        if len > 0 { PathOfPath(node, len - 1); }
      }
      while fork != null && !Contains(fork)
        invariant fork != null ==> 0 <= fork.height < |path| && path[fork.height] == fork
        invariant forall i | (if fork == null then 0 else fork.height + 1) <= i < |path| && i < len :: path[i] != Nodes()[i]
        decreases if fork == null then 0 else fork.height + 1
      {
        PathOfPath(node, fork.height);
        fork := fork.parent;
      }
      if fork != null { SharedPrefix(Tip(), node, fork.height); }
    }

    /** An ancestor, looked up directly once the walk has met the view. */
    method Earlier(n: BlockNode, height: int) returns (a: BlockNode)
      requires Valid() && Linked(n) && 0 <= height <= n.height
      ensures a == Path(n)[height]
    {
      if Contains(n) {
        PathOfPath(Tip(), n.height);
        a := buf[height];
      } else {
        a := AncestorAt(n, height);
      }
    }

    /** The locator of `node`, or of the tip, and the number of entries computed in advance. */
    method BlockLocator(node: BlockNode?) returns (locator: seq<BlockHash>, maxEntries: nat)
      requires Valid() && len <= MAX_INT32 + 1 && (node != null ==> Linked(node) && node.height <= MAX_INT32)
      ensures |locator| == maxEntries
      ensures var n := if node == null then Tip() else node;
              if n == null then locator == [] else IsLocator(n, locator)
    {
      hide Path, Linked, EntryHeight, StepAt, IsLength, IsLog2, ToInt32;
      var n: BlockNode? := node;
      if n == null { n := Tip(); }
      if n == null { return [], 0; }
      ghost var first, path := n, Path(n);
      ghost var h: nat := n.height;
      maxEntries := MaxEntries(n.height);
      locator := [];
      var step := 1;
      FirstEntry(h);
      while n != null
        invariant n != null && Linked(n) && n.height == EntryHeight(h, |locator|) <= h && n == path[n.height]
        invariant n.height > 0 ==> step == StepAt(|locator|)
        invariant forall k: nat | k < |locator| :: 0 < EntryHeight(h, k) <= h && locator[k] == path[EntryHeight(h, k)].hash
        decreases n.height
      {
        locator := locator + [n.hash];
        if n.height == 0 { break; }
        NextHeight(h, |locator| - 1);
        var height := n.height - step;
        if height < 0 { height := 0; }
        PathOfPath(first, n.height);
        PathOfPath(first, height);
        n := Earlier(n, height);
        if |locator| > 10 { step := ToInt32(step * 2); }
      }
      LengthHere(h, |locator|);
      LengthUnique(h, |locator|, maxEntries);
    }
  }

  /** Two paths that meet at a height are the same up to there. */
  lemma SharedPrefix(a: BlockNode, b: BlockNode, h: nat)
    requires Linked(a) && Linked(b) && h <= a.height && h <= b.height && Path(a)[h] == Path(b)[h]
    ensures Path(a)[..h + 1] == Path(b)[..h + 1]
  {
    hide Path, Linked;
    PathOfPath(a, h);
    PathOfPath(b, h);
  }

  /** `fork` ends the longest common prefix of two walks. */
  ghost predicate IsFork(a: seq<BlockNode>, b: seq<BlockNode>, fork: BlockNode?) {
    if fork == null then a == [] || b == [] || a[0] != b[0]
    else
      && 0 <= fork.height < |a| && fork.height < |b|
      && a[..fork.height + 1] == b[..fork.height + 1]
      && a[fork.height] == fork
      && (fork.height + 1 < |a| && fork.height + 1 < |b| ==> a[fork.height + 1] != b[fork.height + 1])
  }

  /** The number of entries of the locator of a block of height `h`. */
  method MaxEntries(h: nat) returns (n: nat)
    requires h <= MAX_INT32
    ensures IsLength(h, n)
  {
    hide IsLength, IsLog2;
    if h <= 12 {
      LengthFormula(h, 0);
      return h + 1;
    }
    var log := FastLog2Floor(h - 10);
    LengthFormula(h, log);
    return 12 + log;
  }

  lemma FirstEntry(h: nat)
    ensures EntryHeight(h, 0) == h && StepAt(0) == 1
  {
  }

  lemma LengthHere(h: nat, len: nat)
    requires len > 0 && EntryHeight(h, len - 1) == 0 && forall k: nat | k < len - 1 :: EntryHeight(h, k) > 0
    ensures IsLength(h, len)
  {
  }

  /** The hashes of the blocks a locator of `n` names. */
  ghost predicate IsLocator(n: BlockNode, locator: seq<BlockHash>)
    requires Linked(n)
  {
    && IsLength(n.height, |locator|)
    && forall k | 0 <= k < |locator| :: locator[k] == Path(n)[EntryHeight(n.height, k)].hash
  }

  /** `Contains` means "is the tip or one of its ancestors", and a height names the tip's ancestor there. */
  lemma ContainsIffAncestor(view: ChainView, node: BlockNode)
    requires view.Valid() && view.Tip() != null && Linked(node)
    ensures view.Contains(node) <==> Ancestor(node, view.Tip())
    ensures view.Contains(node) ==> Path(node) == view.Nodes()[..node.height + 1]
    ensures forall h :: view.NodeByHeight(h) == if 0 <= h <= view.Tip().height then Path(view.Tip())[h] else null
  {
    if view.Contains(node) { PathOfPath(view.Tip(), node.height); }
  }
}
