/** Loading the chain state at start-up. */
module Restart {
  import opened Bytes
  import opened ChainTree
  import opened ChainView
  import opened ChainQuery
  import opened Store
  import opened BlockIndex
  import opened MedianTime
  import opened Chain

  datatype LoadError = NoError | NotGenesisFirst | ParentMissing | TipMissing | BlockMissing

  /** The cursor visits all keys of the bucket in byte order. */
  ghost predicate Enumerates(cursor: seq<RowKey>, rows: map<RowKey, Row>) {
    && (forall i | 0 <= i < |cursor| :: cursor[i] in rows)
    && (forall k | k in rows :: k in cursor)
    && (forall i, j | 0 <= i < j < |cursor| :: Less(cursor[i].raw, cursor[j].raw))
  }

  /** `n` was built from the row under `k`. */
  ghost predicate BuiltFrom(params: Params, row: Row, k: RowKey, n: BlockNode, index: Index) {
    && n.hash == params.hashOf(row.header) && n.BlockHeader() == row.header && n.height == HeightOf(k)
    && n.votes == row.votes && Linked(n)
    && (n.parent == null <==> HeightOf(k) == 0)
    && (n.parent != null ==> Indexed(index, n.parent))
  }

  /** The row under `k` is in the index. */
  ghost predicate Has(params: Params, row: Row, k: RowKey, index: Index, st: BlockIndex.Statuses) {
    var h := params.hashOf(row.header);
    && h in index && BuiltFrom(params, row, k, index[h], index) && h in st && st[h] == row.status
  }

  ghost predicate From(params: Params, rows: map<RowKey, Row>, keys: set<RowKey>, n: BlockNode, h: BlockHash) {
    && n.hash == h && NodeKey(n) in keys && NodeKey(n) in rows && params.hashOf(rows[NodeKey(n)].header) == h
  }

  /** The index holds exactly the nodes of the given rows. */
  ghost predicate Built(params: Params, rows: map<RowKey, Row>, keys: set<RowKey>, index: Index, st: BlockIndex.Statuses) {
    && (forall k | k in keys :: k in rows && Has(params, rows[k], k, index, st))
    && (forall h | h in index :: From(params, rows, keys, index[h], h))
  }

  function Visited(cursor: seq<RowKey>, i: nat): set<RowKey>
    requires i <= |cursor|
  {
    set j | 0 <= j < i :: cursor[j]
  }

  lemma RowFacts(params: Params, db: Db, k: RowKey)
    requires RowsOk(params, db) && db.Db? && k in db.rows
    ensures RowOk(params, db, k)
  {
    hide RowOk;
  }

  lemma SameRow(params: Params, db: Db, k1: RowKey, k2: RowKey)
    requires RowsOk(params, db) && db.Db? && k1 in db.rows && k2 in db.rows
    requires params.hashOf(db.rows[k1].header) == params.hashOf(db.rows[k2].header)
    ensures k1 == k2
  {
    hide RowOk;
  }

  /** A key that sorts before the one at `i` has been visited. */
  lemma VisitedBefore(cursor: seq<RowKey>, rows: map<RowKey, Row>, i: nat, k: RowKey)
    requires Enumerates(cursor, rows) && i < |cursor| && k in rows && Less(k.raw, cursor[i].raw)
    ensures k in Visited(cursor, i)
  {
    hide Less;
    var j :| 0 <= j < |cursor| && cursor[j] == k;
    LessAsymmetric(k.raw, cursor[i].raw);
  }

  /** A parent's row comes before its child's. */
  lemma ParentFirst(params: Params, db: Db, cursor: seq<RowKey>, i: nat)
    requires RowsOk(params, db) && db.Db? && Enumerates(cursor, db.rows) && i < |cursor| && HeightOf(cursor[i]) > 0
    ensures var h, prev := HeightOf(cursor[i]), db.rows[cursor[i]].header.prev;
            var k := KeyOf(h - 1, prev);
            k in db.rows && k in Visited(cursor, i) && HeightOf(k) == h - 1 && params.hashOf(db.rows[k].header) == prev
  {
    hide Less, KeyOf, HeightOf, RowsOk;
    var k := cursor[i];
    RowFacts(params, db, k);
    var h, header := HeightOf(k), db.rows[k].header;
    var p := KeyOf(h - 1, header.prev);
    RowFacts(params, db, p);
    HeightOfKey(h - 1, header.prev);
    KeyInjective(h - 1, header.prev, HeightOf(p), params.hashOf(db.rows[p].header));
    KeyOrder(h - 1, header.prev, h, params.hashOf(header));
    VisitedBefore(cursor, db.rows, i, p);
  }

  /** The first row, and only it, is that of the genesis block. */
  lemma GenesisFirst(params: Params, db: Db, cursor: seq<RowKey>, i: nat)
    requires RowsOk(params, db) && db.Db? && Enumerates(cursor, db.rows) && i < |cursor|
    ensures HeightOf(cursor[i]) == 0 <==> i == 0
    ensures i == 0 ==> params.hashOf(db.rows[cursor[i]].header) == params.GenesisHash() && db.rows[cursor[i]].header.prev == ZERO_HASH
  {
    hide Less, KeyOf, HeightOf, RowsOk;
    if HeightOf(cursor[0]) > 0 { ParentFirst(params, db, cursor, 0); }
    RowFacts(params, db, cursor[0]);
    RowFacts(params, db, cursor[i]);
    if HeightOf(cursor[i]) == 0 {
      SameRow(params, db, cursor[0], cursor[i]);
      LessAsymmetric(cursor[0].raw, cursor[i].raw);
    }
  }

  /** Where the parent of the next row is found. */
  lemma ParentBuilt(params: Params, db: Db, cursor: seq<RowKey>, i: nat, index: Index, st: BlockIndex.Statuses)
    requires RowsOk(params, db) && db.Db? && Enumerates(cursor, db.rows) && i < |cursor| && Built(params, db.rows, Visited(cursor, i), index, st)
    ensures HeightOf(cursor[i]) == 0 <==> i == 0
    ensures var header := db.rows[cursor[i]].header;
            if i == 0 then params.hashOf(header) == params.GenesisHash() && header.prev == ZERO_HASH
            else && header.prev in index && index[header.prev].hash == header.prev && Linked(index[header.prev])
                 && index[header.prev].height == HeightOf(cursor[i]) - 1
  {
    hide Less, KeyOf, HeightOf, RowsOk, NodeKey, Linked, Built, Visited;
    GenesisFirst(params, db, cursor, i);
    if i > 0 {
      ParentFirst(params, db, cursor, i);
      var k := KeyOf(HeightOf(cursor[i]) - 1, db.rows[cursor[i]].header.prev);
      HasIt(params, db.rows, Visited(cursor, i), index, st, k);
    }
  }

  lemma HasIt(params: Params, rows: map<RowKey, Row>, keys: set<RowKey>, index: Index, st: BlockIndex.Statuses, k: RowKey)
    requires Built(params, rows, keys, index, st) && k in keys
    ensures k in rows && Has(params, rows[k], k, index, st)
  {
    hide Has, NodeKey, From;
  }

  lemma StillHas(params: Params, row: Row, k: RowKey, index: Index, st: BlockIndex.Statuses, n: BlockNode, status: Status)
    requires Has(params, row, k, index, st) && n.hash !in index
    ensures Has(params, row, k, index[n.hash := n], st[n.hash := status])
  {
    hide HeightOf, Linked;
  }

  lemma NewHash(params: Params, db: Db, keys: set<RowKey>, index: Index, st: BlockIndex.Statuses, k: RowKey)
    requires RowsOk(params, db) && db.Db? && k in db.rows && k !in keys && Built(params, db.rows, keys, index, st)
    ensures params.hashOf(db.rows[k].header) !in index
  {
    hide RowsOk, Has, NodeKey;
    var h := params.hashOf(db.rows[k].header);
    if h in index {
      SameRow(params, db, k, NodeKey(index[h]));
    }
  }

  /** One more row. */
  lemma BuildOne(params: Params, db: Db, keys: set<RowKey>, index: Index, st: BlockIndex.Statuses, k: RowKey, n: BlockNode)
    requires RowsOk(params, db) && db.Db? && k in db.rows && k !in keys && Built(params, db.rows, keys, index, st)
    requires BuiltFrom(params, db.rows[k], k, n, index)
    ensures Built(params, db.rows, keys + {k}, index[n.hash := n], st[n.hash := db.rows[k].status])
  {
    hide KeyOf, HeightOf, RowsOk, Linked, Has, NodeKey;
    NewHash(params, db, keys, index, st, k);
    RowFacts(params, db, k);
    var index1, st1 := index[n.hash := n], st[n.hash := db.rows[k].status];
    forall k1 | k1 in keys + {k} ensures k1 in db.rows && Has(params, db.rows[k1], k1, index1, st1) {
      if k1 in keys {
        HasIt(params, db.rows, keys, index, st, k1);
        StillHas(params, db.rows[k1], k1, index, st, n, db.rows[k].status);
      } else {
        NewHas(params, db.rows[k], k, n, index, st);
      }
    }
    NewFrom(params, db.rows[k], db.rows, keys, k, n);
    assert forall h | h in index :: From(params, db.rows, keys, index[h], h);
  }

  lemma NewHas(params: Params, row: Row, k: RowKey, n: BlockNode, index: Index, st: BlockIndex.Statuses)
    requires BuiltFrom(params, row, k, n, index) && n.hash !in index
    ensures Has(params, row, k, index[n.hash := n], st[n.hash := row.status])
  {
    hide HeightOf, Linked;
  }

  lemma NewFrom(params: Params, row: Row, rows: map<RowKey, Row>, keys: set<RowKey>, k: RowKey, n: BlockNode)
    requires k in rows && row == rows[k] && n.hash == params.hashOf(row.header) && n.height == HeightOf(k) && k == KeyOf(HeightOf(k), n.hash)
    ensures From(params, rows, keys + {k}, n, n.hash)
  {
    hide KeyOf, HeightOf;
  }

  ghost function StatusesOf(index: Index): (st: BlockIndex.Statuses)
    reads index.Values
    ensures st.Keys == index.Keys && forall h | h in index :: st[h] == index[h].status
  {
    map h | h in index :: index[h].status
  }

  /** The node that a header names as its parent: most often the one loaded before it. */
  method FindParent(params: Params, header: Header, last: BlockNode?, index: Index) returns (parent: BlockNode?, error: LoadError)
    ensures error == if last == null then if params.hashOf(header) == params.GenesisHash() then NoError else NotGenesisFirst
                     else if header.prev == last.hash || header.prev in index then NoError else ParentMissing
    ensures error == NoError ==> parent == if last == null || header.prev == last.hash then last else index[header.prev]
  {
    error, parent := NoError, null;
    if last == null {
      if params.hashOf(header) != params.GenesisHash() { error := NotGenesisFirst; }
    } else if header.prev == last.hash {
      parent := last;
    } else if header.prev in index {
      parent := index[header.prev];
    } else {
      error := ParentMissing;
    }
  }

  method NodeFrom(hash: BlockHash, row: Row, parent: BlockNode?) returns (node: BlockNode)
    requires parent != null ==> Linked(parent)
    ensures fresh(node) && node.hash == hash && node.parent == parent && node.fields == row.header.fields
    ensures node.votes == row.votes && node.status == row.status && Linked(node)
    ensures node.height == if parent == null then 0 else parent.height + 1
    ensures Path(node) == (if parent == null then [] else Path(parent)) + [node]
  {
    hide Path, Linked;
    node := new BlockNode(hash, row.header.fields, parent, row.votes);
    node.status := row.status;
    if parent == null { RootPath(node); } else { PathPush(node); }
  }

  method LoadIndex(params: Params, db: Db, cursor: seq<RowKey>) returns (index: Index, error: LoadError, ghost st: BlockIndex.Statuses)
    requires db.Db? && Enumerates(cursor, db.rows)
    ensures st == StatusesOf(index)
    ensures RowsOk(params, db) ==> error == NoError && Built(params, db.rows, db.rows.Keys, index, st)
    ensures forall h | h in index :: Linked(index[h]) && fresh(Path(index[h]))
  {
    hide Less, KeyOf, HeightOf, RowsOk, Built, Visited, Path, Linked;
    index, st := map[], map[];
    var last: BlockNode? := null;
    ghost var good := RowsOk(params, db);
    NothingBuilt(params, db.rows, cursor);
    for i := 0 to |cursor|
      invariant (i == 0 <==> last == null) && st == StatusesOf(index)
      invariant last != null ==> Linked(last) && fresh(Path(last))
      invariant forall h | h in index :: Linked(index[h]) && fresh(Path(index[h]))
      invariant good ==> Built(params, db.rows, Visited(cursor, i), index, st) && (last != null ==> Indexed(index, last))
    {
      var row := db.rows[cursor[i]];
      var hash := params.hashOf(row.header);
      if good { ParentBuilt(params, db, cursor, i, index, st); }
      var parent;
      parent, error := FindParent(params, row.header, last, index);
      if error != NoError { return; }
      var node := NodeFrom(hash, row, parent);
      if good { BuildNext(params, db, cursor, i, index, st, node, parent); }
      index, st := index[hash := node], st[hash := row.status];
      last := node;
    }
    AllVisited(cursor, db.rows);
    return index, NoError, st;
  }

  lemma NothingBuilt(params: Params, rows: map<RowKey, Row>, cursor: seq<RowKey>)
    ensures Built(params, rows, Visited(cursor, 0), map[], map[])
  {
    assert Visited(cursor, 0) == {};
  }

  lemma AllVisited(cursor: seq<RowKey>, rows: map<RowKey, Row>)
    requires Enumerates(cursor, rows)
    ensures Visited(cursor, |cursor|) == rows.Keys
  {
    hide Less;
  }

  lemma BuildNext(params: Params, db: Db, cursor: seq<RowKey>, i: nat, index: Index, st: BlockIndex.Statuses, n: BlockNode, parent: BlockNode?)
    requires RowsOk(params, db) && db.Db? && Enumerates(cursor, db.rows) && i < |cursor|
    requires Built(params, db.rows, Visited(cursor, i), index, st) && Linked(n)
    requires var row := db.rows[cursor[i]];
             && n.hash == params.hashOf(row.header) && n.fields == row.header.fields && n.votes == row.votes && n.parent == parent
             && (i == 0 <==> parent == null)
             && (parent != null ==> row.header.prev in index && parent == index[row.header.prev] && n.height == parent.height + 1)
             && (parent == null ==> n.height == 0)
    ensures Built(params, db.rows, Visited(cursor, i + 1), index[n.hash := n], st[n.hash := db.rows[cursor[i]].status])
  {
    hide Less, RowsOk, Built, HeightOf, Linked;
    if cursor[i] in Visited(cursor, i) {
      var j :| 0 <= j < i && cursor[j] == cursor[i];
      LessAsymmetric(cursor[j].raw, cursor[i].raw);
    }
    ParentBuilt(params, db, cursor, i, index, st);
    BuildOne(params, db, Visited(cursor, i), index, st, cursor[i], n);
    assert Visited(cursor, i + 1) == Visited(cursor, i) + {cursor[i]};
  }

  /** A loaded row, seen from its node. */
  lemma NodeFacts(params: Params, db: Db, index: Index, st: BlockIndex.Statuses, h: BlockHash)
    requires RowsOk(params, db) && db.Db? && Built(params, db.rows, db.rows.Keys, index, st) && h in index
    ensures var n := index[h];
            && n.hash == h && NodeKey(n) in db.rows && h in st && db.rows[NodeKey(n)] == RowOf(n, st[h]) && h in db.stored
            && Linked(n) && NodeOk(params, n) && (n.parent != null ==> Indexed(index, n.parent))
  {
    hide RowsOk, KeyOf, HeightOf, Linked;
    var k := NodeKey(index[h]);
    HasIt(params, db.rows, db.rows.Keys, index, st, k);
    RowFacts(params, db, k);
  }

  lemma RowsFitBuilt(params: Params, db: Db, index: Index, st: BlockIndex.Statuses)
    requires RowsOk(params, db) && db.Db? && Built(params, db.rows, db.rows.Keys, index, st)
    ensures RowsFit(params, index, db.rows)
  {
    hide RowsOk, KeyOf, HeightOf, Linked, Built;
    forall k | k in db.rows ensures RowFits(params, index, k, db.rows[k]) {
      HasIt(params, db.rows, db.rows.Keys, index, st, k);
      RowFacts(params, db, k);
    }
  }

  /** What was built is a tree that matches the rows, with nothing left to save. */
  lemma BuiltOk(params: Params, db: Db, index: Index, st: BlockIndex.Statuses)
    requires RowsOk(params, db) && db.Db? && Built(params, db.rows, db.rows.Keys, index, st) && params.GenesisHash() in index
    requires st.Keys == index.Keys
    ensures TreeOk(params, index) && RowsFit(params, index, db.rows) && Clean(index, st, {}, db.rows)
    ensures Closed(index, db.rows) && Held(index, db.stored)
  {
    hide RowsOk, NodeKey, RowOf, NodeOk, Linked, Built, RowFits;
    RowsFitBuilt(params, db, index, st);
    forall h | h in index
      ensures index[h].hash == h && Linked(index[h]) && NodeOk(params, index[h]) && h in db.stored
      ensures index[h].parent != null ==> Indexed(index, index[h].parent)
      ensures NodeKey(index[h]) in db.rows && Saved(db.rows, index[h], st[h])
    {
      NodeFacts(params, db, index, st, h);
    }
  }

  /** The stored main chain is the path to the node with its last hash. */
  lemma {:induction false} MainPath(params: Params, db: Db, chain: seq<BlockHash>, index: Index, st: BlockIndex.Statuses, h: nat)
    requires RowsOk(params, db) && Lists(params, db, chain) && Built(params, db.rows, db.rows.Keys, index, st)
    requires h < |chain| <= MAX_INT32 + 1
    ensures chain[h] in index && index[chain[h]].hash == chain[h] && Linked(index[chain[h]]) && index[chain[h]].height == h
    ensures Hashes(Path(index[chain[h]])) == chain[..h + 1]
    ensures Sound(st, index[chain[h]])
  {
    hide RowsOk, KeyOf, HeightOf, Built, Txns, Mirrors, Path, Linked;
    var k := KeyOf(h, chain[h]);
    assert MainRow(db.rows, h, chain[h]);
    RowFacts(params, db, k);
    HeightOfKey(h, chain[h]);
    KeyInjective(h, chain[h], HeightOf(k), params.hashOf(db.rows[k].header));
    HasIt(params, db.rows, db.rows.Keys, index, st, k);
    var n := index[chain[h]];
    if h == 0 {
      RootPath(n);
    } else {
      MainPath(params, db, chain, index, st, h - 1);
      PathPush(n);
      assert chain[..h + 1] == chain[..h] + [chain[h]];
    }
  }

  lemma RootPath(n: BlockNode)
    requires Linked(n) && n.parent == null
    ensures Path(n) == [n] && Hashes(Path(n)) == [n.hash]
  {
  }

  /** The loaded tree, its tip and the database belong together. */
  lemma LoadedConsistent(params: Params, db: Db, chain: seq<BlockHash>, index: Index, st: BlockIndex.Statuses)
    requires RowsOk(params, db) && Lists(params, db, chain) && Built(params, db.rows, db.rows.Keys, index, st) && |chain| <= MAX_INT32 + 1
    requires st.Keys == index.Keys
    ensures db.best.hash in index && db.best.hash in db.stored && Linked(index[db.best.hash])
    ensures Consistent(params, index, st, {}, db, index[db.best.hash]) && Hashes(Path(index[db.best.hash])) == chain
  {
    hide RowsOk, KeyOf, HeightOf, Built, Txns, Mirrors, MainRows, Path, Linked, TreeOk, RowsFit, Clean, Closed;
    var m := |chain| - 1;
    MainPath(params, db, chain, index, st, 0);
    MainPath(params, db, chain, index, st, m);
    var tip := index[chain[m]];
    assert chain[..m + 1] == chain;
    GenesisIndexed(params, db, index, st, chain[0]);
    BuiltOk(params, db, index, st);
    forall i | 0 <= i < |Path(tip)| ensures Indexed(index, Path(tip)[i]) && Sound(st, Path(tip)[i]) {
      MainPath(params, db, chain, index, st, i);
      OnPath(params, index, tip, i);
      assert Hashes(Path(tip))[i] == chain[i];
    }
  }

  lemma GenesisIndexed(params: Params, db: Db, index: Index, st: BlockIndex.Statuses, hash: BlockHash)
    requires RowsOk(params, db) && db.Db? && Built(params, db.rows, db.rows.Keys, index, st)
    requires hash in index && index[hash].height == 0
    ensures params.GenesisHash() in index
  {
    hide RowsOk, Built, Linked;
    NodeFacts(params, db, index, st, hash);
    LinkedHeight(index[hash]);
  }

  lemma OnPath(params: Params, index: Index, tip: BlockNode, i: nat)
    requires TreeOk(params, index) && Indexed(index, tip) && Linked(tip) && i <= tip.height
    ensures Indexed(index, Path(tip)[i])
  {
    hide Path, Linked;
    AncestorsIndexed(index, tip, i);
  }

  ghost predicate AllValid(path: seq<BlockNode>)
    reads path
  {
    forall i | 0 <= i < |path| :: path[i].status.valid
  }

  /** Marks the tip and all its ancestors as valid and says which were not. */
  method MarkValid(tip: BlockNode, ghost path: seq<BlockNode>) returns (dirty: set<BlockNode>)
    requires Linked(tip) && path == Path(tip)
    modifies path
    ensures forall i | 0 <= i < |path| :: path[i].status == Join(old(path[i].status), VALID)
    ensures forall i | 0 <= i < |path| :: path[i] in dirty <==> !old(path[i].status.valid)
    ensures old(AllValid(path)) ==> dirty == {} && forall i | 0 <= i < |path| :: path[i].status == old(path[i].status)
  {
    hide Path, Linked;
    dirty := {};
    PathHeights(tip);
    var n: BlockNode? := tip;
    while n != null
      invariant n != null ==> 0 <= n.height <= tip.height && path[n.height] == n
      invariant forall i | (if n == null then 0 else n.height + 1) <= i < |path| ::
                  path[i].status == Join(old(path[i].status), VALID) && (path[i] in dirty <==> !old(path[i].status.valid))
      invariant n != null ==> forall i | 0 <= i <= n.height :: path[i].status == old(path[i].status) && path[i] !in dirty
      invariant old(AllValid(path)) ==> dirty == {}
      decreases if n == null then 0 else n.height + 1
    {
      PathOfPath(tip, n.height);
      if !n.status.valid {
        n.status := Join(n.status, VALID);
        dirty := dirty + {n};
      }
      n := n.parent;
    }
  }

  lemma LoadedAll(params: Params, db: Db, index: Index, st: BlockIndex.Statuses)
    requires Loadable(params, db) && db.Db? && Built(params, db.rows, db.rows.Keys, index, st) && db.best.height <= MAX_INT32
    requires st.Keys == index.Keys
    ensures db.best.hash in index && db.best.hash in db.stored && Linked(index[db.best.hash])
    ensures Consistent(params, index, st, {}, db, index[db.best.hash])
  {
    hide RowsOk, Mirrors, MainRows, Built, Consistent, Path, Linked;
    var chain :| Lists(params, db, chain);
    LoadedConsistent(params, db, chain, index, st);
  }

  lemma MainValid(params: Params, index: Index, st: BlockIndex.Statuses, db: Db, tip: BlockNode)
    requires Consistent(params, index, st, {}, db, tip) && forall h | h in index :: st[h] == index[h].status
    ensures Linked(tip) && AllValid(Path(tip))
  {
    hide Lists, RowsFit, Clean, Closed, Held, TreeOk, Path, Linked;
    forall i | 0 <= i < |Path(tip)| ensures Path(tip)[i].status.valid {
      assert Indexed(index, Path(tip)[i]) && Sound(st, Path(tip)[i]);
    }
  }

  /** Loads the tree and finds the tip.  On a loadable database no lookup fails,
      and no ancestor of the tip has to be marked valid. */
  method LoadChain(params: Params, db: Db, cursor: seq<RowKey>) returns (index: Index, tip: BlockNode?, dirty: set<BlockNode>, error: LoadError)
    requires db.Db? && Enumerates(cursor, db.rows) && db.best.height <= MAX_INT32
    ensures error == NoError ==> tip != null && Linked(tip) && db.best.hash in index && index[db.best.hash] == tip
    ensures Loadable(params, db) ==> error == NoError && dirty == {} && Built(params, db.rows, db.rows.Keys, index, StatusesOf(index))
    ensures Loadable(params, db) ==> Consistent(params, index, StatusesOf(index), {}, db, tip)
  {
    hide RowsOk, Lists, Built, Consistent, Path, Linked, Less, AllValid;
    tip, dirty := null, {};
    ghost var st;
    index, error, st := LoadIndex(params, db, cursor);
    if Loadable(params, db) { LoadedAll(params, db, index, st); }
    if error != NoError { return; }
    if db.best.hash !in index { return index, null, {}, TipMissing; }
    tip := index[db.best.hash];
    if db.best.hash !in db.stored { return index, null, {}, BlockMissing; }
    ghost var path := Path(tip);
    if Loadable(params, db) { MainValid(params, index, st, db, tip); }
    assert fresh(path);
    dirty := MarkValid(tip, path);
    if Loadable(params, db) {
      assert forall i | 0 <= i < |path| :: path[i] in path;
      assert StatusesOf(index) == st;
    }
  }

  /** Starting up, on an empty database or on any state that a run has committed. */
  method InitChainState(params: Params, db: Db, cursor: seq<RowKey>) returns (chain: BlockChain)
    requires params.genesis.prev == ZERO_HASH
    requires db.Db? ==> Loadable(params, db) && Enumerates(cursor, db.rows) && Room(db.best.height)
    ensures chain.Valid() && chain.params == params && chain.dirty == {} && Describes(chain.stateSnapshot, chain.Tip())
    ensures db.Db? ==> chain.db == db && chain.Tip().hash == db.best.hash
    ensures db.Db? ==> Built(params, db.rows, db.rows.Keys, chain.index, chain.Statuses())
    ensures RowsNear(params, db) ==> chain.Narrow()
  {
    hide BlockChain.Narrow, RowsNear, Loadable, Built, Enumerates, Consistent, SnapshotOk, Recorded, Describes, Path, Linked;
    if db.Empty? {
      chain := new BlockChain(params);
    } else {
      chain := Reopen(params, db, cursor);
      if RowsNear(params, db) { ReopenedNarrow(chain); }
    }
  }

  lemma ReopenedNarrow(chain: BlockChain)
    requires chain.Valid() && chain.dirty == {} && chain.history == [chain.db] && RowsNear(chain.params, chain.db)
    ensures chain.Narrow()
  {
    hide ValidNear, Consistent, SnapshotOk, Recorded;
    LoadedNear(chain.params, chain.index, chain.Statuses(), chain.db, chain.bestChain.Tip());
  }

  /** A run that stops after any of its transactions can be taken up again. */
  method Recover(chain: BlockChain, db: Db, cursor: seq<RowKey>) returns (again: BlockChain)
    requires chain.Valid() && chain.params.genesis.prev == ZERO_HASH && db in chain.history
    requires db.Db? && Enumerates(cursor, db.rows) && Room(db.best.height)
    ensures again.Valid() && again.params == chain.params && again.dirty == {} && again.db == db
    ensures again.Tip().hash == db.best.hash && Describes(again.stateSnapshot, again.Tip())
    ensures Built(chain.params, db.rows, db.rows.Keys, again.index, again.Statuses())
    ensures chain.Narrow() ==> again.Narrow()
  {
    hide RowsNear, ValidNear, Loadable, Built, Enumerates, Consistent, SnapshotOk, Describes, Path, Linked;
    again := InitChainState(chain.params, db, cursor);
  }

  method Reopen(params: Params, db: Db, cursor: seq<RowKey>) returns (chain: BlockChain)
    requires db.Db? && Loadable(params, db) && Enumerates(cursor, db.rows) && Room(db.best.height)
    ensures chain.Valid() && chain.params == params && chain.dirty == {} && Describes(chain.stateSnapshot, chain.Tip())
    ensures chain.db == db && chain.Tip().hash == db.best.hash
    ensures Built(params, db.rows, db.rows.Keys, chain.index, chain.Statuses()) && chain.history == [db]
  {
    hide Loadable, Built, Consistent, Path, Linked, Enumerates, SnapshotOk, Describes, Recorded, BlockChain.Valid, BlockChain.Tip, Txns, Hashes;
    var index, tip, dirty, error := LoadChain(params, db, cursor);
    LoadedTotal(params, index, StatusesOf(index), db, tip);
    var snapshot := LoadSnapshot(params, db.best, tip);
    chain := Assemble(params, index, tip, snapshot, db);
  }

  method Assemble(params: Params, index: Index, tip: BlockNode, snapshot: Snapshot, db: Db) returns (chain: BlockChain)
    requires Consistent(params, index, StatusesOf(index), {}, db, tip) && Linked(tip) && SnapshotOk(params, snapshot, tip)
    requires Loadable(params, db) && Room(tip.height)
    ensures chain.Valid() && chain.params == params && chain.dirty == {} && chain.db == db && chain.history == [db]
    ensures chain.index == index && chain.Statuses() == StatusesOf(index) && chain.Tip() == tip && chain.stateSnapshot == snapshot
  {
    hide Loadable, Consistent, Path, Linked, SnapshotOk;
    var view := new ChainView();
    view.SetTip(tip);
    chain := new BlockChain.Load(params, index, view, snapshot, db);
    assert chain.Statuses() == StatusesOf(index);
  }

  method LoadSnapshot(params: Params, best: Best, tip: BlockNode) returns (snapshot: Snapshot)
    requires Linked(tip) && best == Best(tip.hash, tip.height, Txns(params.bodyOf, Hashes(Path(tip))))
    ensures SnapshotOk(params, snapshot, tip) && Describes(snapshot, tip)
  {
    hide Path, Linked, IsMedian, Window;
    var median := CalcPastMedianTime(tip);
    snapshot := NewBestState(params, tip, best.totalTxns, tip.fields, median, tip.votes);
  }

  lemma LoadedTotal(params: Params, index: Index, st: BlockIndex.Statuses, db: Db, tip: BlockNode)
    requires Consistent(params, index, st, {}, db, tip)
    ensures db.Db? && Linked(tip) && db.best == Best(tip.hash, tip.height, Txns(params.bodyOf, Hashes(Path(tip))))
  {
    hide Txns, Mirrors, MainRows, RowsFit, Clean, Closed, Held, TreeOk, MainOk, DirtyOk, Path, Linked;
    assert Hashes(Path(tip))[tip.height] == tip.hash;
  }

  /** Every node that was saved before the stop comes back with its header, height and
      votes, and with its status if it was not waiting to be written; no other node does. */
  lemma ComesBack(params: Params, index: Index, st: BlockIndex.Statuses, dirty: set<BlockNode>, db: Db, tip: BlockNode,
                  index1: Index, st1: BlockIndex.Statuses, h: BlockHash)
    requires Consistent(params, index, st, dirty, db, tip) && RowsOk(params, db)
    requires Built(params, db.rows, db.rows.Keys, index1, st1)
    ensures h in index1 <==> h in index && NodeKey(index[h]) in db.rows
    ensures h in index1 ==>
              && index1[h].BlockHeader() == index[h].BlockHeader() && index1[h].height == index[h].height
              && index1[h].votes == index[h].votes && h in st1
              && (index[h] !in dirty ==> st1[h] == st[h])
  {
    hide RowsOk, Built, KeyOf, Lists, Closed, Held, MainOk, DirtyOk, Path, Linked, IndexOk, NodeKey, RowsFit, Clean;
    if h in index1 {
      NodeFacts(params, db, index1, st1, h);
      SavedRow(params, index, db, NodeKey(index1[h]));
      IndexedHash(index, h);
      SameHeight(index1[h], index[h]);
      if index[h] !in dirty { CleanRow(index, st, dirty, db.rows, h); }
    }
    if h in index && NodeKey(index[h]) in db.rows {
      var k := NodeKey(index[h]);
      SavedRow(params, index, db, k);
      IndexedHash(index, h);
      IndexedHash(index, params.hashOf(db.rows[k].header));
      if index[params.hashOf(db.rows[k].header)] != index[h] {
        KeysDiffer(params, index, index[params.hashOf(db.rows[k].header)], index[h]);
      }
      HasIt(params, db.rows, db.rows.Keys, index1, st1, k);
    }
  }

  lemma SavedRow(params: Params, index: Index, db: Db, k: RowKey)
    requires db.Db? && RowsFit(params, index, db.rows) && k in db.rows
    ensures RowFits(params, index, k, db.rows[k])
  {
    hide RowFits;
  }

  lemma CleanRow(index: Index, st: BlockIndex.Statuses, dirty: set<BlockNode>, rows: map<RowKey, Row>, h: BlockHash)
    requires Clean(index, st, dirty, rows) && h in index && index[h] !in dirty
    ensures h in st && Saved(rows, index[h], st[h])
  {
    hide Saved;
  }

  lemma SameHeight(n1: BlockNode, n2: BlockNode)
    requires Linked(n1) && Linked(n2) && n1.height <= MAX_INT32 && n2.height <= MAX_INT32 && NodeKey(n1) == NodeKey(n2)
    ensures n1.height == n2.height
  {
    hide KeyOf, Linked;
    LinkedHeight(n1);
    LinkedHeight(n2);
    KeyInjective(n1.height, n1.hash, n2.height, n2.hash);
  }
}
