/** What the database holds about the chain, and when a restart can load it. */
module Store {
  import opened Bytes
  import opened ChainTree

  datatype RowKey = RowKey(raw: bytes)
  datatype Row = Row(header: Header, status: Status, votes: nat)
  datatype Body = Body(numTxns: nat, size: nat, weight: nat)

  /** The hash function, the contents a block hash commits to, and the first header. */
  datatype Params = Params(hashOf: Header -> BlockHash, bodyOf: BlockHash -> Body, genesis: Header) {
    function GenesisHash(): BlockHash {
      hashOf(genesis)
    }
  }

  /** The parts of the best state record that are read back. */
  datatype Best = Best(hash: BlockHash, height: nat, totalTxns: nat)

  datatype Db = Empty | Db(rows: map<RowKey, Row>, hashIndex: map<BlockHash, nat>, heightIndex: map<nat, BlockHash>,
                           best: Best, stored: set<BlockHash>)

  /** The block index key: the height, high byte first, then the hash. */
  function KeyOf(height: nat, hash: BlockHash): RowKey {
    RowKey(BigEndian(height, 4) + hash.raw)
  }

  function HeightOf(k: RowKey): nat {
    if |k.raw| < 4 then 0 else FromBigEndian(k.raw[..4])
  }

  lemma HeightOfKey(height: nat, hash: BlockHash)
    requires height <= MAX_INT32
    ensures HeightOf(KeyOf(height, hash)) == height && |KeyOf(height, hash).raw| >= 4
    ensures KeyOf(height, hash).raw[4..] == hash.raw
  {
    hide BigEndian, FromBigEndian, Pow256;
    Widths();
    BigEndianRoundTrip(height, 4);
    assert KeyOf(height, hash).raw[..4] == BigEndian(height, 4);
  }

  lemma KeyInjective(height1: nat, hash1: BlockHash, height2: nat, hash2: BlockHash)
    requires height1 <= MAX_INT32 && height2 <= MAX_INT32 && KeyOf(height1, hash1) == KeyOf(height2, hash2)
    ensures height1 == height2 && hash1 == hash2
  {
    hide KeyOf, HeightOf;
    HeightOfKey(height1, hash1);
    HeightOfKey(height2, hash2);
  }

  /** A lower height sorts first, whatever the hashes. */
  lemma KeyOrder(height1: nat, hash1: BlockHash, height2: nat, hash2: BlockHash)
    requires height1 < height2 <= MAX_INT32
    ensures Less(KeyOf(height1, hash1).raw, KeyOf(height2, hash2).raw)
  {
    hide BigEndian, Less, Pow256;
    Widths();
    BigEndianOrder(height1, height2, 4, hash1.raw, hash2.raw);
  }

  /** The transactions along a chain of blocks. */
  function Txns(bodyOf: BlockHash -> Body, chain: seq<BlockHash>): nat {
    if chain == [] then 0 else Txns(bodyOf, chain[..|chain| - 1]) + bodyOf(chain[|chain| - 1]).numTxns
  }

  lemma TxnsPush(bodyOf: BlockHash -> Body, chain: seq<BlockHash>, hash: BlockHash)
    ensures Txns(bodyOf, chain + [hash]) == Txns(bodyOf, chain) + bodyOf(hash).numTxns
  {
    assert (chain + [hash])[..|chain|] == chain;
  }

  /** A row sits under its own height and hash, and above its parent's row. */
  ghost predicate RowOk(params: Params, db: Db, k: RowKey)
    requires db.Db? && k in db.rows
  {
    var h, header := HeightOf(k), db.rows[k].header;
    && h <= MAX_INT32 && k == KeyOf(h, params.hashOf(header)) && params.hashOf(header) in db.stored
    && (h == 0 <==> params.hashOf(header) == params.GenesisHash())
    && (if h == 0 then header.prev == ZERO_HASH else KeyOf(h - 1, header.prev) in db.rows)
  }

  /** The rows form a tree rooted at genesis in which a hash occurs once. */
  ghost predicate RowsOk(params: Params, db: Db) {
    && db.Db?
    && (forall k {:trigger RowOk(params, db, k)} | k in db.rows :: RowOk(params, db, k))
    && (forall k1, k2 | k1 in db.rows && k2 in db.rows && params.hashOf(db.rows[k1].header) == params.hashOf(db.rows[k2].header) ::
          k1 == k2)
  }

  /** A block of the main chain is stored as fully validated. */
  ghost predicate MainRow(rows: map<RowKey, Row>, height: nat, hash: BlockHash) {
    && KeyOf(height, hash) in rows
    && rows[KeyOf(height, hash)].status.valid && !rows[KeyOf(height, hash)].status.KnownInvalid()
  }

  /** The two main-chain buckets are each other's inverse and list exactly `chain`. */
  ghost predicate Mirrors(db: Db, chain: seq<BlockHash>) {
    && db.Db?
    && (forall h: nat :: h in db.heightIndex <==> h < |chain|)
    && (forall h | 0 <= h < |chain| :: db.heightIndex[h] == chain[h] && chain[h] in db.hashIndex && db.hashIndex[chain[h]] == h)
    && (forall x | x in db.hashIndex :: db.hashIndex[x] < |chain| && chain[db.hashIndex[x]] == x)
  }

  ghost predicate MainRows(db: Db, chain: seq<BlockHash>) {
    && db.Db?
    && (forall h | 0 <= h < |chain| :: MainRow(db.rows, h, chain[h]))
    && (forall h | 0 < h < |chain| :: db.rows[KeyOf(h, chain[h])].header.prev == chain[h - 1])
  }

  /** The best state record describes the end of `chain`. */
  ghost predicate BestOk(params: Params, db: Db, chain: seq<BlockHash>) {
    && db.Db? && chain != []
    && db.best == Best(chain[|chain| - 1], |chain| - 1, Txns(params.bodyOf, chain))
  }

  ghost predicate Lists(params: Params, db: Db, chain: seq<BlockHash>) {
    Mirrors(db, chain) && MainRows(db, chain) && BestOk(params, db, chain)
  }

  /** What a restart needs. */
  ghost predicate Loadable(params: Params, db: Db) {
    RowsOk(params, db) && exists chain :: Lists(params, db, chain)
  }

  /** Connecting a block whose row is already stored as valid. */
  function Connected(db: Db, hash: BlockHash, height: nat, totalTxns: nat): Db
    requires db.Db?
  {
    db.(best := Best(hash, height, totalTxns), hashIndex := db.hashIndex[hash := height],
        heightIndex := db.heightIndex[height := hash])
  }

  function Disconnected(db: Db, hash: BlockHash, height: nat, prev: BlockHash, totalTxns: nat): Db
    requires db.Db? && height > 0
  {
    db.(best := Best(prev, height - 1, totalTxns), hashIndex := db.hashIndex - {hash},
        heightIndex := db.heightIndex - {height})
  }

  lemma ConnectedMirrors(db: Db, chain: seq<BlockHash>, hash: BlockHash, total: nat)
    requires Mirrors(db, chain) && hash !in chain
    ensures Mirrors(Connected(db, hash, |chain|, total), chain + [hash])
  {
  }

  lemma ConnectedLists(params: Params, db: Db, chain: seq<BlockHash>, hash: BlockHash, total: nat)
    requires Lists(params, db, chain) && hash !in chain && total == Txns(params.bodyOf, chain) + params.bodyOf(hash).numTxns
    requires MainRow(db.rows, |chain|, hash) && db.rows[KeyOf(|chain|, hash)].header.prev == chain[|chain| - 1]
    ensures Lists(params, Connected(db, hash, |chain|, total), chain + [hash])
  {
    hide MainRow, KeyOf, Txns, Mirrors;
    TxnsPush(params.bodyOf, chain, hash);
    ConnectedMirrors(db, chain, hash, total);
  }

  lemma DisconnectedMirrors(db: Db, chain: seq<BlockHash>, hash: BlockHash, prev: BlockHash, total: nat)
    requires Mirrors(db, chain + [hash]) && chain != []
    ensures Mirrors(Disconnected(db, hash, |chain|, prev, total), chain)
  {
    var all := chain + [hash];
    assert forall h | 0 <= h < |chain| :: all[h] == chain[h];
    assert all[|chain|] == hash;
  }

  lemma DisconnectedLists(params: Params, db: Db, chain: seq<BlockHash>, hash: BlockHash, total: nat)
    requires Lists(params, db, chain + [hash]) && chain != []
    requires total == Txns(params.bodyOf, chain + [hash]) - params.bodyOf(hash).numTxns
    ensures Lists(params, Disconnected(db, hash, |chain|, chain[|chain| - 1], total), chain)
  {
    hide MainRow, KeyOf, Txns, Mirrors;
    TxnsPush(params.bodyOf, chain, hash);
    DisconnectedMirrors(db, chain, hash, chain[|chain| - 1], total);
    var all := chain + [hash];
    assert forall h | 0 <= h < |chain| :: all[h] == chain[h];
  }
}
