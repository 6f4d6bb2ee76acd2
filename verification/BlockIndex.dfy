/** The in-memory block index against the rows saved in the database. */
module BlockIndex {
  import opened Bytes
  import opened ChainTree
  import opened ChainQuery
  import opened Store

  type Statuses = map<BlockHash, Status>

  /** The node is what its header says, and only genesis has no parent. */
  ghost predicate NodeOk(params: Params, n: BlockNode) {
    && n.height <= MAX_INT32 && params.hashOf(n.BlockHeader()) == n.hash
    && (n.parent == null <==> n.hash == params.GenesisHash())
  }

  ghost predicate TreeOk(params: Params, index: Index) {
    && IndexOk(index) && params.GenesisHash() in index
    && forall h | h in index :: NodeOk(params, index[h])
  }

  predicate Indexed(index: Index, n: BlockNode) {
    n.hash in index && index[n.hash] == n
  }

  function NodeKey(n: BlockNode): RowKey {
    KeyOf(if n.height < 0 then 0 else n.height, n.hash)
  }

  function RowOf(n: BlockNode, status: Status): Row {
    Row(n.BlockHeader(), status, n.votes)
  }

  /** A saved row is that of an indexed node, whatever status it was saved with. */
  ghost predicate RowFits(params: Params, index: Index, k: RowKey, row: Row) {
    var h := params.hashOf(row.header);
    && h in index && k == NodeKey(index[h]) && row == RowOf(index[h], row.status)
  }

  ghost predicate RowsFit(params: Params, index: Index, rows: map<RowKey, Row>) {
    forall k | k in rows :: RowFits(params, index, k, rows[k])
  }

  ghost predicate Saved(rows: map<RowKey, Row>, n: BlockNode, status: Status) {
    NodeKey(n) in rows && rows[NodeKey(n)] == RowOf(n, status)
  }

  /** Every node is marked dirty or saved as it is. */
  ghost predicate Clean(index: Index, st: Statuses, dirty: set<BlockNode>, rows: map<RowKey, Row>) {
    forall h | h in index :: index[h] in dirty || (h in st && Saved(rows, index[h], st[h]))
  }

  /** No row is saved without its parent's. */
  ghost predicate Closed(index: Index, rows: map<RowKey, Row>) {
    forall h | h in index && index[h].parent != null && NodeKey(index[h]) in rows :: NodeKey(index[h].parent) in rows
  }

  ghost predicate DirtyOk(index: Index, dirty: set<BlockNode>) {
    forall n | n in dirty :: Indexed(index, n)
  }

  ghost predicate Held(index: Index, stored: set<BlockHash>) {
    forall h | h in index :: h in stored
  }

  ghost predicate Sound(st: Statuses, n: BlockNode) {
    n.hash in st && st[n.hash].valid && !st[n.hash].KnownInvalid()
  }

  /** The nodes of the main chain are indexed, validated and not known to be invalid. */
  ghost predicate MainOk(index: Index, st: Statuses, nodes: seq<BlockNode>) {
    forall i | 0 <= i < |nodes| :: Indexed(index, nodes[i]) && Sound(st, nodes[i])
  }

  /** Index, dirty set, database and the chain up to `tip` belong together. */
  ghost predicate Consistent(params: Params, index: Index, st: Statuses, dirty: set<BlockNode>, db: Db, tip: BlockNode) {
    && TreeOk(params, index) && db.Db? && Linked(tip) && st.Keys == index.Keys
    && RowsFit(params, index, db.rows) && Clean(index, st, dirty, db.rows) && Closed(index, db.rows)
    && DirtyOk(index, dirty) && Held(index, db.stored)
    && MainOk(index, st, Path(tip)) && Lists(params, db, Hashes(Path(tip)))
  }

  /** Every validated block is near the chain up to `tip`. */
  ghost predicate ValidNear(index: Index, st: Statuses, tip: BlockNode)
    requires Linked(tip) && st.Keys == index.Keys
  {
    forall h | h in index && st[h].valid :: NearBest(index[h], tip)
  }

  /** The same of the rows and the main chain in a database. */
  ghost predicate RowsNear(params: Params, db: Db) {
    db.Db? ==>
      forall k | k in db.rows && db.rows[k].status.valid ::
        params.hashOf(db.rows[k].header) == params.GenesisHash() || db.rows[k].header.prev in db.hashIndex
  }

  lemma KeysDiffer(params: Params, index: Index, n1: BlockNode, n2: BlockNode)
    requires TreeOk(params, index) && Indexed(index, n1) && Indexed(index, n2) && n1 != n2
    ensures NodeKey(n1) != NodeKey(n2)
  {
    hide KeyOf, IndexOk;
    if NodeKey(n1) == NodeKey(n2) {
      var h1, h2 := if n1.height < 0 then 0 else n1.height, if n2.height < 0 then 0 else n2.height;
      KeyInjective(h1, n1.hash, h2, n2.hash);
    }
  }

  lemma RowFitsOk(params: Params, index: Index, db: Db, k: RowKey)
    requires TreeOk(params, index) && db.Db? && Closed(index, db.rows) && Held(index, db.stored)
    requires k in db.rows && RowFits(params, index, k, db.rows[k])
    ensures RowOk(params, db, k)
  {
    hide KeyOf, HeightOf, Path;
    var n := index[params.hashOf(db.rows[k].header)];
    assert Linked(n);
    LinkedHeight(n);
    HeightOfKey(n.height, n.hash);
  }

  lemma LinkedHeight(n: BlockNode)
    requires Linked(n)
    ensures n.height >= 0 && (n.height == 0 <==> n.parent == null)
  {
  }

  /** Whatever is consistent can be loaded. */
  lemma ConsistentLoadable(params: Params, index: Index, db: Db, tip: BlockNode)
    requires TreeOk(params, index) && db.Db? && RowsFit(params, index, db.rows) && Closed(index, db.rows)
    requires Held(index, db.stored) && Linked(tip) && Lists(params, db, Hashes(Path(tip)))
    ensures Loadable(params, db)
  {
    hide RowOk, TreeOk, Closed, Held, Lists, KeyOf, Path, Linked;
    forall k | k in db.rows ensures RowOk(params, db, k) {
      RowFitsOk(params, index, db, k);
    }
  }

  /** Writing one dirty node. */
  lemma WriteOne(params: Params, index: Index, st: Statuses, todo: set<BlockNode>, rows: map<RowKey, Row>, n: BlockNode)
    requires TreeOk(params, index) && Indexed(index, n) && n.hash in st
    requires RowsFit(params, index, rows) && Clean(index, st, todo, rows)
    ensures var rows1 := rows[NodeKey(n) := RowOf(n, st[n.hash])];
            RowsFit(params, index, rows1) && Clean(index, st, todo - {n}, rows1)
  {
    hide KeyOf, IndexOk;
    var rows1 := rows[NodeKey(n) := RowOf(n, st[n.hash])];
    assert NodeOk(params, n);
    forall h | h in index && index[h] !in todo - {n}
      ensures h in st && Saved(rows1, index[h], st[h])
    {
      assert index[h].hash == h by { IndexedHash(index, h); }
      if index[h] != n { KeysDiffer(params, index, index[h], n); }
    }
  }

  lemma IndexedHash(index: Index, h: BlockHash)
    requires IndexOk(index) && h in index
    ensures Indexed(index, index[h]) && index[h].hash == h && Linked(index[h])
  {
  }

  /** Once all nodes are saved, so is the main chain, as validated. */
  lemma AllSaved(params: Params, index: Index, st: Statuses, db: Db, rows: map<RowKey, Row>, tip: BlockNode)
    requires TreeOk(params, index) && Linked(tip) && MainOk(index, st, Path(tip)) && Clean(index, st, {}, rows)
    requires Lists(params, db, Hashes(Path(tip)))
    ensures Closed(index, rows) && Lists(params, db.(rows := rows), Hashes(Path(tip)))
  {
    hide KeyOf, Path, Linked, Txns, Mirrors;
    var nodes := Path(tip);
    var db1 := db.(rows := rows);
    assert Mirrors(db1, Hashes(nodes)) by { SameMirrors(db, db1, Hashes(nodes)); }
    forall h | 0 <= h < |nodes|
      ensures MainRow(rows, h, nodes[h].hash)
      ensures h > 0 ==> rows[KeyOf(h, nodes[h].hash)].header.prev == nodes[h - 1].hash
    {
      PathOfPath(tip, h);
      assert Indexed(index, nodes[h]) && Sound(st, nodes[h]);
      assert Saved(rows, nodes[h], st[nodes[h].hash]);
    }
    forall h | h in index && index[h].parent != null ensures NodeKey(index[h].parent) in rows {
      assert Indexed(index, index[h].parent);
      assert Saved(rows, index[h].parent, st[index[h].parent.hash]);
    }
  }

  lemma SameMirrors(db: Db, db1: Db, chain: seq<BlockHash>)
    requires Mirrors(db, chain) && db1.Db? && db1.hashIndex == db.hashIndex && db1.heightIndex == db.heightIndex
    ensures Mirrors(db1, chain)
  {
  }

  /** Indexing a new node whose block is stored. */
  lemma AddKeeps(params: Params, index: Index, st: Statuses, dirty: set<BlockNode>, db: Db, tip: BlockNode, n: BlockNode, status: Status)
    requires Consistent(params, index, st, dirty, db, tip)
    requires n.hash !in index && n.hash in db.stored && n.parent != null && Indexed(index, n.parent) && Linked(n)
    requires n.height <= MAX_INT32 && params.hashOf(n.BlockHeader()) == n.hash
    ensures Consistent(params, index[n.hash := n], st[n.hash := status], dirty + {n}, db, tip)
  {
    hide KeyOf, Path, Linked, Lists;
    var index1, st1 := index[n.hash := n], st[n.hash := status];
    AddTree(params, index, n);
    LinkedHeight(n);
    UnsavedKey(params, index, db.rows, n);
    AddRows(params, index, st, dirty, db.rows, n, status);
    assert MainOk(index1, st1, Path(tip));
  }

  lemma AddTree(params: Params, index: Index, n: BlockNode)
    requires TreeOk(params, index) && n.hash !in index && n.parent != null && Indexed(index, n.parent) && Linked(n)
    requires n.height <= MAX_INT32 && params.hashOf(n.BlockHeader()) == n.hash
    ensures TreeOk(params, index[n.hash := n])
  {
    hide Linked;
  }

  lemma UnsavedKey(params: Params, index: Index, rows: map<RowKey, Row>, n: BlockNode)
    requires TreeOk(params, index) && RowsFit(params, index, rows) && n.hash !in index && 0 <= n.height <= MAX_INT32
    ensures NodeKey(n) !in rows
  {
    hide KeyOf, IndexOk;
    if NodeKey(n) in rows {
      var h := params.hashOf(rows[NodeKey(n)].header);
      IndexedHash(index, h);
      LinkedHeight(index[h]);
      KeyInjective(n.height, n.hash, index[h].height, index[h].hash);
      assert false;
    }
  }

  lemma AddRows(params: Params, index: Index, st: Statuses, dirty: set<BlockNode>, rows: map<RowKey, Row>, n: BlockNode, status: Status)
    requires RowsFit(params, index, rows) && Clean(index, st, dirty, rows) && Closed(index, rows) && DirtyOk(index, dirty)
    requires n.hash !in index && NodeKey(n) !in rows
    ensures var index1, st1 := index[n.hash := n], st[n.hash := status];
            && RowsFit(params, index1, rows) && Clean(index1, st1, dirty + {n}, rows) && Closed(index1, rows)
            && DirtyOk(index1, dirty + {n})
  {
    hide NodeKey, RowOf;
  }

  /** Changing a status, without spoiling the main chain. */
  lemma StatusKeeps(params: Params, index: Index, st: Statuses, dirty: set<BlockNode>, db: Db, tip: BlockNode, n: BlockNode, status: Status)
    requires Consistent(params, index, st, dirty, db, tip) && Indexed(index, n)
    requires n in Path(tip) ==> status.valid && !status.KnownInvalid()
    ensures Consistent(params, index, st[n.hash := status], dirty + {n}, db, tip)
  {
    hide KeyOf, Path, Linked, Lists, RowsFit, Closed, Held, NodeKey, RowOf;
    var nodes := Path(tip);
    forall i | 0 <= i < |nodes| ensures Sound(st[n.hash := status], nodes[i]) {
      assert Indexed(index, nodes[i]) && Sound(st, nodes[i]);
    }
  }

  lemma PathPush(n: BlockNode)
    requires Linked(n) && n.parent != null
    ensures Linked(n.parent) && n.height == n.parent.height + 1 && Path(n) == Path(n.parent) + [n]
    ensures Hashes(Path(n)) == Hashes(Path(n.parent)) + [n.hash]
  {
  }

  /** A validated child of the tip becomes the tip. */
  lemma ConnectKeeps(params: Params, index: Index, st: Statuses, db: Db, tip: BlockNode, n: BlockNode, total: nat)
    requires Consistent(params, index, st, {}, db, tip) && Indexed(index, n) && n.parent == tip && Sound(st, n)
    requires total == Txns(params.bodyOf, Hashes(Path(tip))) + params.bodyOf(n.hash).numTxns
    ensures Linked(n) && n.height == tip.height + 1
    ensures Consistent(params, index, st, {}, Connected(db, n.hash, n.height, total), n)
  {
    hide KeyOf, Path, Linked, Txns, Lists, MainRow, IndexOk, RowsFit, Closed, Held, Saved, NodeOk;
    IndexedHash(index, n.hash);
    PathPush(n);
    LinkedHeight(tip);
    NotOnMain(index, st, tip, n);
    assert Saved(db.rows, n, st[n.hash]);
    ChildRow(db.rows, n, st[n.hash]);
    ConnectedLists(params, db, Hashes(Path(tip)), n.hash, total);
  }

  lemma NotOnMain(index: Index, st: Statuses, tip: BlockNode, n: BlockNode)
    requires Linked(tip) && MainOk(index, st, Path(tip)) && Indexed(index, n) && n.height > tip.height
    ensures n.hash !in Hashes(Path(tip))
  {
    hide Path, Linked;
    if n.hash in Hashes(Path(tip)) {
      var i :| 0 <= i < |Path(tip)| && Path(tip)[i].hash == n.hash;
      PathOfPath(tip, i);
      assert false;
    }
  }

  lemma ChildRow(rows: map<RowKey, Row>, n: BlockNode, status: Status)
    requires Saved(rows, n, status) && n.parent != null && n.height >= 0 && status.valid && !status.KnownInvalid()
    ensures MainRow(rows, n.height, n.hash) && rows[KeyOf(n.height, n.hash)].header.prev == n.parent.hash
  {
    hide KeyOf;
  }

  /** The tip is taken off. */
  lemma DisconnectKeeps(params: Params, index: Index, st: Statuses, dirty: set<BlockNode>, db: Db, tip: BlockNode, total: nat)
    requires Consistent(params, index, st, dirty, db, tip) && tip.parent != null
    requires total == Txns(params.bodyOf, Hashes(Path(tip))) - params.bodyOf(tip.hash).numTxns
    ensures tip.height > 0 && Linked(tip.parent)
    ensures Consistent(params, index, st, dirty, Disconnected(db, tip.hash, tip.height, tip.parent.hash, total), tip.parent)
  {
    hide KeyOf, Path, Linked, Txns, Lists, TreeOk, RowsFit, Clean, Closed, Held;
    PathPush(tip);
    LinkedHeight(tip);
    LinkedHeight(tip.parent);
    DisconnectedLists(params, db, Hashes(Path(tip.parent)), tip.hash, total);
    forall i | 0 <= i < |Path(tip.parent)|
      ensures Indexed(index, Path(tip.parent)[i]) && Sound(st, Path(tip.parent)[i])
    {
      assert Path(tip)[i] == Path(tip.parent)[i];
    }
  }

  /** Storing a block. */
  lemma StoreKeeps(params: Params, index: Index, st: Statuses, dirty: set<BlockNode>, db: Db, tip: BlockNode, hash: BlockHash)
    requires Consistent(params, index, st, dirty, db, tip)
    ensures Consistent(params, index, st, dirty, db.(stored := db.stored + {hash}), tip)
  {
    hide KeyOf, Path, Linked, Txns, TreeOk, RowsFit, Clean, Closed, MainOk, Mirrors, MainRow;
    SameMirrors(db, db.(stored := db.stored + {hash}), Hashes(Path(tip)));
  }

  /** Once every node is saved the rows are as near to the best chain as the nodes. */
  lemma SavedNear(params: Params, index: Index, st: Statuses, db: Db, tip: BlockNode)
    requires Consistent(params, index, st, {}, db, tip) && ValidNear(index, st, tip)
    ensures RowsNear(params, db)
  {
    hide Path, Linked, KeyOf, Closed, Held, MainOk, MainRows, BestOk, IndexOk;
    forall k | k in db.rows && db.rows[k].status.valid
      ensures params.hashOf(db.rows[k].header) == params.GenesisHash() || db.rows[k].header.prev in db.hashIndex
    {
      assert RowFits(params, index, k, db.rows[k]);
      var h := params.hashOf(db.rows[k].header);
      var n := index[h];
      assert NodeOk(params, n) && Saved(db.rows, n, st[h]);
      if n.parent != null {
        var i :| 0 <= i < |Path(tip)| && Path(tip)[i] == n.parent;
        assert Hashes(Path(tip))[i] == n.parent.hash;
      }
    }
  }

  /** And the other way round, when the nodes were read from the rows. */
  lemma LoadedNear(params: Params, index: Index, st: Statuses, db: Db, tip: BlockNode)
    requires Consistent(params, index, st, {}, db, tip) && RowsNear(params, db)
    ensures ValidNear(index, st, tip)
  {
    hide Path, Linked, KeyOf, Closed, Held, MainRows, BestOk;
    forall h | h in index && st[h].valid ensures NearBest(index[h], tip) {
      var n := index[h];
      assert NodeOk(params, n) && Saved(db.rows, n, st[h]);
      if n.parent != null {
        var i := db.hashIndex[n.parent.hash];
        assert Hashes(Path(tip))[i] == n.parent.hash;
        assert Indexed(index, Path(tip)[i]);
      }
    }
  }

  lemma AddNear(index: Index, st: Statuses, tip: BlockNode, n: BlockNode, status: Status)
    requires Linked(tip) && st.Keys == index.Keys && ValidNear(index, st, tip) && !status.valid
    ensures ValidNear(index[n.hash := n], st[n.hash := status], tip)
  {
  }

  lemma StatusNear(index: Index, st: Statuses, tip: BlockNode, n: BlockNode, status: Status)
    requires Linked(tip) && st.Keys == index.Keys && ValidNear(index, st, tip) && Indexed(index, n)
    requires status.valid ==> st[n.hash].valid || NearBest(n, tip)
    ensures ValidNear(index, st[n.hash := status], tip)
  {
  }

  lemma ConnectNear(params: Params, index: Index, st: Statuses, tip: BlockNode, n: BlockNode, db: Db, total: nat)
    requires Linked(n) && n.parent == tip && st.Keys == index.Keys && ValidNear(index, st, tip)
    requires db.Db? && RowsNear(params, db)
    ensures n.height >= 0 && ValidNear(index, st, n) && RowsNear(params, Connected(db, n.hash, n.height, total))
  {
  }
}
