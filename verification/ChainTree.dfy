/** Block nodes and the walk from a node back to genesis. */
module ChainTree {
  import opened Bytes

  datatype BlockHash = BlockHash(raw: bytes)

  const ZERO_HASH: BlockHash := BlockHash(Zeros(32))

  /** A block header: the parent's hash and everything else. */
  datatype Fields = Fields(version: int, merkleRoot: bytes, timestamp: int, signature: bytes, publicKey: bytes,
                           scale: nat, reserved: nat)
  datatype Header = Header(prev: BlockHash, fields: Fields)

  /** The bits of a block's validation status. */
  datatype Status = Status(dataStored: bool, valid: bool, validateFailed: bool, invalidAncestor: bool) {
    predicate KnownInvalid() {
      validateFailed || invalidAncestor
    }
  }

  const STATUS_NONE := Status(false, false, false, false)

  /** A block in the tree.  Only the validation status changes once a node is made. */
  class BlockNode {
    const parent: BlockNode?
    const hash: BlockHash
    const height: int
    const fields: Fields
    const votes: nat
    var status: Status

    constructor (hash: BlockHash, fields: Fields, parent: BlockNode?, votes: nat)
      requires parent != null ==> Linked(parent)
      ensures this.hash == hash && this.parent == parent && this.fields == fields && this.votes == votes
      ensures height == (if parent == null then 0 else parent.height + 1) && status == STATUS_NONE
      ensures Linked(this)
    {
      this.hash, this.parent, this.fields, this.votes, this.status := hash, parent, fields, votes, STATUS_NONE;
      this.height := if parent == null then 0 else parent.height + 1;
    }

    /** The header, rebuilt from the node. */
    function BlockHeader(): Header {
      Header(if parent == null then ZERO_HASH else parent.hash, fields)
    }
  }

  /** The node is linked back to genesis, one height a step. */
  ghost predicate Linked(n: BlockNode)
    decreases if n.height < 0 then 0 else n.height
  {
    if n.parent == null then n.height == 0
    else n.parent.height >= 0 && n.height == n.parent.height + 1 && Linked(n.parent)
  }

  /** The nodes from genesis to `n`. */
  ghost function Path(n: BlockNode): (p: seq<BlockNode>)
    requires Linked(n)
    ensures n.height >= 0 && |p| == n.height + 1 && p[n.height] == n
    decreases n.height
  {
    if n.parent == null then [n] else Path(n.parent) + [n]
  }

  /** The block is genesis or its parent is on the chain up to `tip`. */
  ghost predicate NearBest(n: BlockNode, tip: BlockNode)
    requires Linked(tip)
  {
    n.parent == null || n.parent in Path(tip)
  }

  /** Every prefix of a path is the path of its last node. */
  lemma {:induction false} PathOfPath(n: BlockNode, h: nat)
    requires Linked(n) && h <= n.height
    ensures Linked(Path(n)[h]) && Path(n)[h].height == h && Path(Path(n)[h]) == Path(n)[..h + 1]
    ensures if h == 0 then Path(n)[h].parent == null else Path(n)[h].parent == Path(n)[h - 1]
    decreases n.height
  {
    if h == n.height {
      assert Path(n)[..h + 1] == Path(n);
    } else {
      PathOfPath(n.parent, h);
      assert Path(n)[..h + 1] == Path(n.parent)[..h + 1];
    }
  }

  /** `a` is `n` or one of its ancestors. */
  ghost predicate Ancestor(a: BlockNode, n: BlockNode)
    requires Linked(n)
  {
    0 <= a.height <= n.height && Path(n)[a.height] == a
  }

  method AncestorAt(node: BlockNode, height: int) returns (r: BlockNode?)
    requires Linked(node)
    ensures if 0 <= height <= node.height then r == Path(node)[height] else r == null
  {
    if height < 0 || height > node.height { return null; }
    var n: BlockNode? := node;
    while n != null && n.height != height
      invariant n != null && height <= n.height <= node.height && n == Path(node)[n.height]
      decreases n.height
    {
      PathOfPath(node, n.height);
      n := n.parent;
    }
    return n;
  }
}
