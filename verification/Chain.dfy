/** Accepting blocks: the block index, the best chain, its snapshot and the database. */
module Chain {
  import opened Bytes
  import opened ChainTree
  import opened ChainView
  import opened ChainQuery
  import opened Store
  import opened BlockIndex
  import opened MedianTime

  /** A block: its header and the votes counted for it. */
  datatype Block = Block(header: Header, votes: nat)

  /** The snapshot of the best block that callers are given. */
  datatype Snapshot = Snapshot(hash: BlockHash, height: int, body: Body, totalTxns: nat, medianTime: int,
                               signature: bytes, pubKey: bytes, scale: nat, reserved: nat, votes: nat)

  /** How a step that depends on code outside the model ends. */
  datatype Verdict = Pass | RuleError | OtherError

  datatype Error = PreviousBlockUnknown | InvalidAncestorBlock | ContextRefused | CheckRefused(verdict: Verdict)
                 | NotExtendingTip | DatabaseError
  datatype Outcome = Done | Failed(error: Error)

  function NewBestState(params: Params, n: BlockNode, totalTxns: nat, fields: Fields, medianTime: int, votes: nat): Snapshot {
    Snapshot(n.hash, n.height, params.bodyOf(n.hash), totalTxns, medianTime,
             fields.signature, fields.publicKey, fields.scale, fields.reserved, votes)
  }

  /** The snapshot is that of the chain up to `tip`. */
  ghost predicate SnapshotOk(params: Params, s: Snapshot, tip: BlockNode)
    requires Linked(tip)
  {
    && s.hash == tip.hash && s.height == tip.height && s.body == params.bodyOf(tip.hash)
    && s.totalTxns == Txns(params.bodyOf, Hashes(Path(tip)))
    && IsMedian(Window(tip, MEDIAN_TIME_BLOCKS), s.medianTime)
  }

  /** The snapshot also carries the header fields and votes of `tip`. */
  predicate Describes(s: Snapshot, tip: BlockNode) {
    && s.signature == tip.fields.signature && s.pubKey == tip.fields.publicKey
    && s.scale == tip.fields.scale && s.reserved == tip.fields.reserved && s.votes == tip.votes
  }

  /** The header fields that a snapshot repeats are the same in both blocks. */
  predicate SameFields(a: BlockNode, b: BlockNode) {
    && a.fields.signature == b.fields.signature && a.fields.publicKey == b.fields.publicKey
    && a.fields.scale == b.fields.scale && a.fields.reserved == b.fields.reserved
  }

  function Join(s: Status, t: Status): Status {
    Status(s.dataStored || t.dataStored, s.valid || t.valid, s.validateFailed || t.validateFailed,
           s.invalidAncestor || t.invalidAncestor)
  }

  /** How the steps of one call end: the contextual check, storing the block, the flush of the
      new node, the full check, the flush of its result, the last warnings, the flush and the
      update that connect the block, and the flush after a failed update. */
  datatype Steps = Steps(context: bool, store: bool, flushNode: bool, check: Verdict, flushCheck: bool,
                         warn: Verdict, flushConnect: bool, commit: Verdict, flushFailure: bool)

  /** The result of connecting a node above the tip. */
  function Connection(steps: Steps): Outcome {
    if !steps.check.Pass? then Failed(CheckRefused(steps.check))
    else if !steps.warn.Pass? then Failed(CheckRefused(steps.warn))
    else if !steps.flushCheck && !steps.flushConnect then Failed(DatabaseError)
    else if !steps.commit.Pass? then Failed(CheckRefused(steps.commit))
    else Done
  }

  /** The status bits a node above the tip gets on the way. */
  function Marks(steps: Steps): Status {
    if steps.check.OtherError? then STATUS_NONE
    else if steps.check.RuleError? then VALIDATE_FAILED
    else if Connection(steps) == Failed(CheckRefused(RuleError)) then Join(VALID, VALIDATE_FAILED)
    else VALID
  }

  /** What the result and the bits say about the steps: a node is connected exactly when every
      step passes, is valid exactly when the full check passes, and is marked as failed exactly
      when a rule was broken. */
  lemma ConnectionMeans(steps: Steps)
    ensures var r, marks := Connection(steps), Marks(steps);
            && (r.Done? <==> steps.check.Pass? && steps.warn.Pass? && (steps.flushCheck || steps.flushConnect) && steps.commit.Pass?)
            && (r == Failed(DatabaseError) ==> !steps.flushCheck && !steps.flushConnect)
            && (r.Failed? && r.error.CheckRefused? ==> !r.error.verdict.Pass?)
            && (marks.valid <==> steps.check.Pass?)
            && (marks.validateFailed <==> r == Failed(CheckRefused(RuleError)))
            && (steps.check.RuleError? ==> marks.validateFailed) && !marks.dataStored && !marks.invalidAncestor
    ensures Join(DATA_STORED, Marks(steps)) == Status(true, Marks(steps).valid, Marks(steps).validateFailed, false)
  {
  }

  const DATA_STORED := Status(true, false, false, false)
  const VALID := Status(false, true, false, false)
  const VALIDATE_FAILED := Status(false, false, true, false)
  const INVALID_ANCESTOR := Status(false, false, false, true)

  /** Every committed state of the database, the last one being the present one, can be loaded. */
  ghost predicate Recorded(params: Params, history: seq<Db>, db: Db) {
    && history != [] && history[|history| - 1] == db
    && forall d | d in history :: Loadable(params, d)
  }

  /** In no committed state is a validated block further from the main chain than its parent. */
  ghost predicate RecordedNear(params: Params, history: seq<Db>) {
    forall d | d in history :: RowsNear(params, d)
  }

  /** There is room for another week of blocks above `height` before heights overflow. */
  predicate Room(height: int) {
    height + 1 + NODES_PER_WEEK <= MAX_INT32
  }

  class BlockChain {
    const params: Params
    const bestChain: ChainView
    var index: Index
    var dirty: set<BlockNode>
    var stateSnapshot: Snapshot
    var db: Db
    ghost var history: seq<Db>

    ghost function Statuses(): (st: BlockIndex.Statuses)
      reads this, index.Values
      ensures st.Keys == index.Keys && forall h | h in index :: st[h] == index[h].status
    {
      map h | h in index :: index[h].status
    }

    ghost predicate Valid()
      reads this, index.Values, bestChain, bestChain.buf
    {
      && bestChain.Valid() && bestChain.len > 0
      && Consistent(params, index, Statuses(), dirty, db, bestChain.Tip())
      && SnapshotOk(params, stateSnapshot, bestChain.Tip())
      && Recorded(params, history, db)
    }

    /** Without reorganisations: every validated block is genesis or has its parent on the
        best chain, in memory and in every committed state. */
    ghost predicate Narrow()
      reads this, index.Values, bestChain, bestChain.buf
    {
      Valid() && ValidNear(index, Statuses(), bestChain.Tip()) && RecordedNear(params, history)
    }

    ghost function Tip(): (tip: BlockNode)
      requires Valid()
      reads this, index.Values, bestChain, bestChain.buf
      ensures Linked(tip) && bestChain.Valid() && bestChain.Nodes() == Path(tip)
    {
      bestChain.Tip()
    }

    /** A new database: the genesis block alone. */
    constructor (params: Params)
      requires params.genesis.prev == ZERO_HASH
      ensures Valid() && this.params == params && fresh(bestChain) && fresh(bestChain.buf)
      ensures bestChain.Nodes() == [index[params.GenesisHash()]] && index.Keys == {params.GenesisHash()}
      ensures bestChain.Tip().hash == params.GenesisHash() && bestChain.Tip().height == 0 && bestChain.Tip().votes == 1
      ensures dirty == {} && history == [db] && Describes(stateSnapshot, bestChain.Tip()) && Narrow()
    {
      hide Consistent, Loadable, Linked, Path, Txns, IsMedian, NodeKey, RowOf, Window, Hashes;
      var node := new BlockNode(params.GenesisHash(), params.genesis.fields, null, 1);
      node.status := Join(DATA_STORED, VALID);
      var numTxns := params.bodyOf(node.hash).numTxns;
      var first := Db(map[NodeKey(node) := RowOf(node, node.status)], map[node.hash := 0], map[0 := node.hash],
                      Best(node.hash, 0, numTxns), {node.hash});
      var view := new ChainView();
      view.SetTip(node);
      this.params, this.bestChain, this.index, this.dirty := params, view, map[node.hash := node], {};
      this.stateSnapshot := NewBestState(params, node, numTxns, params.genesis.fields, node.fields.timestamp, 1);
      this.db, this.history := first, [first];
      new;
      FirstConsistent(params, node, node.status, first);
      assert Statuses() == map[node.hash := node.status];
      FirstMedian(node);
      SavedNear(params, index, Statuses(), db, node);
    }

    /** A chain read back from a database. */
    constructor Load(params: Params, index: Index, view: ChainView, snapshot: Snapshot, db: Db)
      ensures this.params == params && this.index == index && bestChain == view && stateSnapshot == snapshot
      ensures dirty == {} && this.db == db && history == [db]
    {
      this.params, this.index, this.bestChain, this.stateSnapshot := params, index, view, snapshot;
      this.dirty, this.db, this.history := {}, db, [db];
    }

    /** One database transaction that succeeds. */
    method Commit(next: Db)
      requires Recorded(params, history, db) && Loadable(params, next)
      modifies this`db, this`history
      ensures db == next && history == old(history) + [next] && Recorded(params, history, db)
    {
      hide Loadable;
      db := next;
      history := history + [next];
    }

    /** Writes all dirty nodes in one transaction, which may fail. */
    method FlushToDB(ok: bool) returns (done: bool)
      requires Valid()
      modifies this`dirty, this`db, this`history
      ensures Valid() && Tip() == old(Tip()) && old(history) <= history
      ensures done == (ok || old(dirty) == {})
      ensures if done then dirty == {} && db == old(db).(rows := db.rows)
              else dirty == old(dirty) && db == old(db)
      ensures old(Narrow()) ==> Narrow()
    {
      hide ValidNear, RowsNear, SnapshotOk, TreeOk, RowsFit, Clean, Closed, DirtyOk, Held, MainOk, Lists, Loadable, IsMedian, NodeKey, RowOf;
      if dirty == {} { return true; }
      var rows := SaveDirty();
      if !ok { return false; }
      AllSaved(params, index, Statuses(), db, rows, bestChain.Tip());
      ConsistentLoadable(params, index, db.(rows := rows), bestChain.Tip());
      ghost var st := Statuses();
      Commit(db.(rows := rows));
      dirty := {};
      assert Statuses() == st;
      NothingDirty(index);
      if ValidNear(index, st, bestChain.Tip()) { SavedNear(params, index, st, db, bestChain.Tip()); }
      return true;
    }

    method SaveDirty() returns (rows: map<RowKey, Row>)
      requires TreeOk(params, index) && db.Db? && RowsFit(params, index, db.rows)
      requires Clean(index, Statuses(), dirty, db.rows) && DirtyOk(index, dirty)
      ensures RowsFit(params, index, rows) && Clean(index, Statuses(), {}, rows)
    {
      hide TreeOk, RowsFit, Clean, NodeKey, RowOf;
      rows := db.rows;
      var todo := dirty;
      while todo != {}
        invariant todo <= dirty
        invariant RowsFit(params, index, rows) && Clean(index, Statuses(), todo, rows)
      {
        var n :| n in todo;
        WriteOne(params, index, Statuses(), todo, rows, n);
        rows := rows[NodeKey(n) := RowOf(n, n.status)];
        todo := todo - {n};
      }
    }

    /** Indexes a node that is not indexed yet and marks it dirty. */
    method AddNode(node: BlockNode)
      requires Valid() && node.hash !in index && node.hash in db.stored && Linked(node)
      requires node.parent != null && Indexed(index, node.parent)
      requires node.height <= MAX_INT32 && params.hashOf(node.BlockHeader()) == node.hash
      modifies this`index, this`dirty
      ensures Valid() && Tip() == old(Tip()) && index == old(index)[node.hash := node] && dirty == old(dirty) + {node}
      ensures old(Narrow()) && !node.status.valid ==> Narrow()
    {
      hide Consistent, SnapshotOk, Recorded, ValidNear, RecordedNear;
      if Narrow() && !node.status.valid { AddNear(index, Statuses(), bestChain.Tip(), node, node.status); }
      AddKeeps(params, index, Statuses(), dirty, db, bestChain.Tip(), node, node.status);
      ghost var st := Statuses()[node.hash := node.status];
      index := index[node.hash := node];
      dirty := dirty + {node};
      assert Statuses() == st;
    }

    /** Turns status bits on and marks the node dirty. */
    method SetStatusFlags(node: BlockNode, flags: Status)
      requires Valid() && Indexed(index, node)
      requires node in Path(Tip()) ==> !flags.KnownInvalid()
      modifies node`status, this`dirty
      ensures Valid() && Tip() == old(Tip()) && node.status == Join(old(node.status), flags) && dirty == old(dirty) + {node}
      ensures old(Narrow()) && (flags.valid ==> NearBest(node, Tip())) ==> Narrow()
    {
      hide Consistent, SnapshotOk, Recorded, ValidNear, RecordedNear, NearBest;
      if Narrow() && (flags.valid ==> NearBest(node, bestChain.Tip())) {
        StatusNear(index, Statuses(), bestChain.Tip(), node, Join(node.status, flags));
      }
      StatusStep(node, flags);
      ghost var st := Statuses()[node.hash := Join(node.status, flags)];
      SoleHash(node);
      node.status := Join(node.status, flags);
      dirty := dirty + {node};
      assert Statuses() == st;
    }

    lemma StatusStep(node: BlockNode, flags: Status)
      requires Valid() && Indexed(index, node)
      requires node in Path(Tip()) ==> !flags.KnownInvalid()
      ensures Consistent(params, index, Statuses()[node.hash := Join(node.status, flags)], dirty + {node}, db, Tip())
    {
      hide TreeOk, RowsFit, Clean, Closed, Held, Lists, SnapshotOk, Recorded, Path, Linked;
      ghost var nodes := Path(bestChain.Tip());
      if node in nodes {
        ghost var i :| 0 <= i < |nodes| && nodes[i] == node;
        assert Sound(Statuses(), nodes[i]);
      }
      StatusKeeps(params, index, Statuses(), dirty, db, bestChain.Tip(), node, Join(node.status, flags));
    }

    lemma SoleHash(node: BlockNode)
      requires Valid() && Indexed(index, node)
      ensures forall h | h in index :: index[h] == node ==> h == node.hash
    {
    }

    /** Puts a validated block on top of the best chain.  The checks before the
        update and the update itself may fail; then the chain stays as it was. */
    method ConnectBlock(node: BlockNode, block: Block, warn: Verdict, flush: bool, commit: Verdict) returns (r: Outcome)
      requires Valid() && Indexed(index, node) && node.parent != null && Room(node.height)
      requires block.header == node.BlockHeader() && node.status.valid && !node.status.KnownInvalid()
      modifies this`dirty, this`db, this`history, this`stateSnapshot, bestChain, bestChain.buf
      ensures Valid() && old(history) <= history && (bestChain.buf == old(bestChain.buf) || fresh(bestChain.buf))
      ensures r == if old(Tip()) != node.parent then Failed(NotExtendingTip)
                   else if !warn.Pass? then Failed(CheckRefused(warn))
                   else if !flush && old(dirty) != {} then Failed(DatabaseError)
                   else if !commit.Pass? then Failed(CheckRefused(commit)) else Done
      ensures if r.Done? then Tip() == node else Tip() == old(Tip())
      ensures if r.Done? then Describes(stateSnapshot, node) <==> block.votes == node.votes
              else stateSnapshot == old(stateSnapshot)
      ensures old(Narrow()) ==> Narrow()
    {
      hide Narrow, Consistent, SnapshotOk, Recorded, Loadable, Linked, Path, Window, IsMedian, Txns, Hashes, Statuses;
      TipIndexed(node);
      if block.header.prev != bestChain.Tip().hash { return Failed(NotExtendingTip); }
      if !warn.Pass? { return Failed(CheckRefused(warn)); }
      var flushed := FlushToDB(flush);
      if !flushed { return Failed(DatabaseError); }
      var total := stateSnapshot.totalTxns + params.bodyOf(node.hash).numTxns;
      var median := CalcPastMedianTime(node);
      var state := NewBestState(params, node, total, block.header.fields, median, block.votes);
      if !commit.Pass? { return Failed(CheckRefused(commit)); }
      Extend(node, state);
      return Done;
    }

    /** The update of the database and then of the memory. */
    method Extend(node: BlockNode, state: Snapshot)
      requires Valid() && dirty == {} && Indexed(index, node) && node.parent == Tip() && Room(node.height)
      requires node.status.valid && !node.status.KnownInvalid()
      requires state == NewBestState(params, node, stateSnapshot.totalTxns + params.bodyOf(node.hash).numTxns,
                                     node.fields, state.medianTime, state.votes)
      requires IsMedian(Window(node, MEDIAN_TIME_BLOCKS), state.medianTime)
      modifies this`db, this`history, this`stateSnapshot, bestChain, bestChain.buf
      ensures Valid() && Tip() == node && stateSnapshot == state
      ensures old(history) <= history && (bestChain.buf == old(bestChain.buf) || fresh(bestChain.buf))
      ensures old(Narrow()) ==> Narrow()
    {
      hide ValidNear, RecordedNear, Consistent, SnapshotOk, Recorded, Loadable, Linked, Path, Window, IsMedian;
      ConnectStep(node, state);
      ghost var narrow := Narrow();
      if narrow { NearStep(node, state.totalTxns); }
      ghost var st := Statuses();
      Commit(Connected(db, node.hash, node.height, state.totalTxns));
      bestChain.SetTip(node);
      stateSnapshot := state;
      assert Statuses() == st;
    }

    /** Takes the block at the tip off again.  The new snapshot keeps that block's header fields and votes. */
    method DisconnectBlock(node: BlockNode, block: Block, fetch: bool, flush: bool, commit: bool) returns (r: Outcome)
      requires Valid() && Indexed(index, node) && node.parent != null && Room(node.height) && block.header == node.BlockHeader()
      modifies this`dirty, this`db, this`history, this`stateSnapshot, bestChain, bestChain.buf
      ensures Valid() && old(history) <= history && (bestChain.buf == old(bestChain.buf) || fresh(bestChain.buf))
      ensures r == if old(Tip()) != node then Failed(NotExtendingTip)
                   else if !fetch || (!flush && old(dirty) != {}) || !commit then Failed(DatabaseError) else Done
      ensures if r.Done? then Tip() == node.parent else Tip() == old(Tip())
      ensures if r.Done? then Describes(stateSnapshot, node.parent) <==> SameFields(node, node.parent) && block.votes == node.parent.votes
              else stateSnapshot == old(stateSnapshot)
    {
      hide Narrow, Consistent, SnapshotOk, Recorded, Loadable, Linked, Path, Window, IsMedian;
      TipIndexed(node);
      if node.hash != bestChain.Tip().hash { return Failed(NotExtendingTip); }
      if !fetch { return Failed(DatabaseError); }
      var flushed := FlushToDB(flush);
      if !flushed { return Failed(DatabaseError); }
      LastCounted();
      var total := stateSnapshot.totalTxns - params.bodyOf(node.hash).numTxns;
      TipIndexed(node.parent);
      var median := CalcPastMedianTime(node.parent);
      var state := NewBestState(params, node.parent, total, block.header.fields, median, block.votes);
      if !commit { return Failed(DatabaseError); }
      Retract(node, state);
      return Done;
    }

    method Retract(node: BlockNode, state: Snapshot)
      requires Valid() && Indexed(index, node) && node.parent != null && node == Tip() && Room(node.height)
      requires stateSnapshot.totalTxns >= params.bodyOf(node.hash).numTxns
      requires state == NewBestState(params, node.parent, stateSnapshot.totalTxns - params.bodyOf(node.hash).numTxns,
                                     node.fields, state.medianTime, state.votes)
      requires IsMedian(Window(node.parent, MEDIAN_TIME_BLOCKS), state.medianTime)
      modifies this`db, this`history, this`stateSnapshot, bestChain, bestChain.buf
      ensures Valid() && Tip() == node.parent && stateSnapshot == state
      ensures old(history) <= history && (bestChain.buf == old(bestChain.buf) || fresh(bestChain.buf))
    {
      hide Consistent, SnapshotOk, Recorded, Loadable, Linked, Path, Window, IsMedian;
      DisconnectStep(state);
      ghost var st := Statuses();
      Commit(Disconnected(db, node.hash, node.height, node.parent.hash, state.totalTxns));
      bestChain.SetTip(node.parent);
      stateSnapshot := state;
      assert Statuses() == st;
    }

    /** The tip's transactions are part of the total. */
    lemma LastCounted()
      requires Valid()
      ensures stateSnapshot.totalTxns >= params.bodyOf(Tip().hash).numTxns
    {
      hide Consistent, Recorded, Linked, Path, Window, IsMedian;
      var nodes := Path(bestChain.Tip());
      assert Hashes(nodes)[|nodes| - 1] == bestChain.Tip().hash;
    }

    lemma DisconnectStep(state: Snapshot)
      requires Valid() && Tip().parent != null
      requires stateSnapshot.totalTxns >= params.bodyOf(Tip().hash).numTxns
      requires var tip := Tip();
               state == NewBestState(params, tip.parent, stateSnapshot.totalTxns - params.bodyOf(tip.hash).numTxns,
                                     tip.fields, state.medianTime, state.votes)
      requires IsMedian(Window(Tip().parent, MEDIAN_TIME_BLOCKS), state.medianTime)
      ensures var tip := Tip();
              && db.Db? && Linked(tip.parent) && tip.height > 0 && tip.parent.height == tip.height - 1
              && SnapshotOk(params, state, tip.parent)
              && var next := Disconnected(db, tip.hash, tip.height, tip.parent.hash, state.totalTxns);
                 Consistent(params, index, Statuses(), dirty, next, tip.parent) && Loadable(params, next)
    {
      hide Lists, RowsFit, Clean, Closed, Held, Recorded, Path, Linked, Txns, IsMedian, Window, Loadable, TreeOk;
      var tip := bestChain.Tip();
      DisconnectKeeps(params, index, Statuses(), dirty, db, tip, state.totalTxns);
      PathPush(tip);
      TxnsPush(params.bodyOf, Hashes(Path(tip.parent)), tip.hash);
      ConsistentLoadable(params, index, Disconnected(db, tip.hash, tip.height, tip.parent.hash, state.totalTxns), tip.parent);
    }

    /** Connects a node that is new in the index if it extends the best chain.
        There is no reorganisation: any other parent is refused. */
    method ConnectBestChain(node: BlockNode, block: Block, steps: Steps) returns (r: Outcome)
      requires Valid() && Indexed(index, node) && node.parent != null && Room(node.height)
      requires block.header == node.BlockHeader() && !node.status.KnownInvalid()
      modifies this`dirty, this`db, this`history, this`stateSnapshot, node`status, bestChain, bestChain.buf
      ensures Valid() && old(history) <= history && (bestChain.buf == old(bestChain.buf) || fresh(bestChain.buf))
      ensures r == if node.parent != old(Tip()) then Failed(NotExtendingTip) else Connection(steps)
      ensures node.status == if node.parent != old(Tip()) then old(node.status)
                             else Join(old(node.status), Marks(steps))
      ensures if r.Done? then Tip() == node else Tip() == old(Tip())
      ensures if r.Done? then Describes(stateSnapshot, node) <==> block.votes == node.votes
              else stateSnapshot == old(stateSnapshot)
      ensures r.Done? <==> node.parent == old(Tip()) && steps.check.Pass? && steps.warn.Pass?
                           && (steps.flushCheck || steps.flushConnect) && steps.commit.Pass?
      ensures node.parent == old(Tip()) ==>
                && (node.status.valid <==> old(node.status.valid) || steps.check.Pass?)
                && (node.status.validateFailed <==> old(node.status.validateFailed) || r == Failed(CheckRefused(RuleError)))
                && (steps.check.RuleError? ==> node.status.validateFailed && r == Failed(CheckRefused(RuleError)))
                && node.status.dataStored == old(node.status.dataStored)
                && node.status.invalidAncestor == old(node.status.invalidAncestor)
      ensures old(Narrow()) ==> Narrow()
    {
      hide Narrow, Consistent, SnapshotOk, Recorded, Loadable, Linked, Path, Window, IsMedian;
      TipIndexed(node);
      ConnectionMeans(steps);
      if block.header.prev != bestChain.Tip().hash { return Failed(NotExtendingTip); }
      r := ConnectToTip(node, block, steps);
    }

    method ConnectToTip(node: BlockNode, block: Block, steps: Steps) returns (r: Outcome)
      requires Valid() && Indexed(index, node) && node.parent == Tip() && Room(node.height)
      requires block.header == node.BlockHeader() && !node.status.KnownInvalid()
      modifies this`dirty, this`db, this`history, this`stateSnapshot, node`status, bestChain, bestChain.buf
      ensures Valid() && old(history) <= history && (bestChain.buf == old(bestChain.buf) || fresh(bestChain.buf))
      ensures r == Connection(steps) && node.status == Join(old(node.status), Marks(steps))
      ensures if r.Done? then Tip() == node else Tip() == old(Tip())
      ensures if r.Done? then Describes(stateSnapshot, node) <==> block.votes == node.votes
              else stateSnapshot == old(stateSnapshot)
      ensures old(Narrow()) ==> Narrow()
    {
      hide Valid, Narrow, Tip, Linked, Path, Describes;
      if steps.check.OtherError? { return Failed(CheckRefused(steps.check)); }
      AboveTip(node);
      SetStatusFlags(node, if steps.check.Pass? then VALID else VALIDATE_FAILED);
      var flushed := FlushToDB(steps.flushCheck);
      if !steps.check.Pass? { return Failed(CheckRefused(steps.check)); }
      r := ConnectChecked(node, block, steps);
    }

    method ConnectChecked(node: BlockNode, block: Block, steps: Steps) returns (r: Outcome)
      requires Valid() && Indexed(index, node) && node.parent == Tip() && Room(node.height)
      requires block.header == node.BlockHeader() && node.status.valid && !node.status.KnownInvalid()
      requires steps.check.Pass? && (steps.flushCheck <==> dirty == {})
      modifies this`dirty, this`db, this`history, this`stateSnapshot, node`status, bestChain, bestChain.buf
      ensures Valid() && old(history) <= history && (bestChain.buf == old(bestChain.buf) || fresh(bestChain.buf))
      ensures r == Connection(steps) && node.status == Join(old(node.status), Marks(steps))
      ensures if r.Done? then Tip() == node else Tip() == old(Tip())
      ensures if r.Done? then Describes(stateSnapshot, node) <==> block.votes == node.votes
              else stateSnapshot == old(stateSnapshot)
      ensures old(Narrow()) ==> Narrow()
    {
      hide Valid, Narrow, Tip, Linked, Path, Describes;
      AboveTip(node);
      r := ConnectBlock(node, block, steps.warn, steps.flushConnect, steps.commit);
      if r.Failed? { NoteFailure(node, r == Failed(CheckRefused(RuleError)), steps.flushFailure); }
    }

    /** Marks a node that broke a rule when it was connected, and tries to save that. */
    method NoteFailure(node: BlockNode, broke: bool, flush: bool)
      requires Valid() && Indexed(index, node) && node !in Path(Tip())
      modifies node`status, this`dirty, this`db, this`history
      ensures Valid() && Tip() == old(Tip()) && old(history) <= history
      ensures node.status == if broke then old(node.status).(validateFailed := true) else old(node.status)
      ensures old(Narrow()) ==> Narrow()
    {
      hide Valid, Narrow, Tip, Linked, Path;
      if broke { SetStatusFlags(node, VALIDATE_FAILED); }
      var flushed := FlushToDB(flush);
    }

    lemma AboveTip(node: BlockNode)
      requires Valid() && Indexed(index, node) && node.parent == Tip()
      ensures node !in Path(Tip()) && NearBest(node, Tip())
    {
      hide Consistent, SnapshotOk, Recorded, Path, Linked;
      TipIndexed(node);
      PathPush(node);
      var tip := bestChain.Tip();
      assert Path(tip)[tip.height] == tip;
      if node in Path(tip) {
        var i :| 0 <= i < |Path(tip)| && Path(tip)[i] == node;
        PathOfPath(tip, i);
      }
    }

    /** Accepts a block that is not indexed yet.  The best chain stays or grows by this block. */
    method MaybeAcceptBlock(block: Block, steps: Steps) returns (r: Outcome)
      requires Valid() && params.hashOf(block.header) !in index
      requires block.header.prev in index ==> Room(index[block.header.prev].height + 1)
      modifies this, bestChain, bestChain.buf
      ensures Valid() && old(history) <= history && (bestChain.buf == old(bestChain.buf) || fresh(bestChain.buf))
      ensures r == if block.header.prev !in old(index) then Failed(PreviousBlockUnknown)
                   else if old(index[block.header.prev].status.KnownInvalid()) then Failed(InvalidAncestorBlock)
                   else if !steps.context then Failed(ContextRefused)
                   else if !steps.store || !steps.flushNode then Failed(DatabaseError)
                   else if old(index)[block.header.prev] != old(Tip()) then Failed(NotExtendingTip)
                   else Connection(steps)
      ensures var hash := params.hashOf(block.header);
              if hash !in index then index == old(index) && dirty == old(dirty) && db == old(db) && history == old(history)
              else && index == old(index)[hash := index[hash]] && hash in db.stored && fresh(index[hash])
                   && index[hash].BlockHeader() == block.header && index[hash].votes == block.votes
                   && block.header.prev in old(index) && index[hash].height == old(index)[block.header.prev].height + 1
      ensures params.hashOf(block.header) in index ==>
                index[params.hashOf(block.header)].status
                == if steps.flushNode && old(index)[block.header.prev] == old(Tip()) then Join(DATA_STORED, Marks(steps)) else DATA_STORED
      ensures params.hashOf(block.header) in index <==>
                && block.header.prev in old(index) && !old(index[block.header.prev].status.KnownInvalid())
                && steps.context && steps.store
      ensures Path(Tip()) == old(Path(Tip())) + if r.Done? then [index[params.hashOf(block.header)]] else []
      ensures if r.Done? then Describes(stateSnapshot, Tip()) else stateSnapshot == old(stateSnapshot)
      ensures r.Done? <==>
                && block.header.prev in old(index)
                && !old(index[block.header.prev].status.validateFailed) && !old(index[block.header.prev].status.invalidAncestor)
                && steps.context && steps.store && steps.flushNode && old(index)[block.header.prev] == old(Tip())
                && steps.check.Pass? && steps.warn.Pass? && (steps.flushCheck || steps.flushConnect) && steps.commit.Pass?
      ensures params.hashOf(block.header) in index ==>
                var node := index[params.hashOf(block.header)];
                && node.parent == old(index)[block.header.prev] && node.status.dataStored && !node.status.invalidAncestor
                && (node.status.valid <==> steps.flushNode && node.parent == old(Tip()) && steps.check.Pass?)
                && (node.status.validateFailed <==> r == Failed(CheckRefused(RuleError)))
                && (steps.flushNode && node.parent == old(Tip()) && steps.check.RuleError? ==> node.status.validateFailed)
      ensures old(Narrow()) ==> Narrow()
    {
      hide Valid, Narrow, Tip, Linked, Path, Describes, Connection, Marks, Join;
      ConnectionMeans(steps);
      if block.header.prev !in index { return Failed(PreviousBlockUnknown); }
      var prev := index[block.header.prev];
      if prev.status.KnownInvalid() { return Failed(InvalidAncestorBlock); }
      if !steps.context { return Failed(ContextRefused); }
      if !steps.store { return Failed(DatabaseError); }
      var node;
      r, node := StoreAndConnect(block, steps);
    }

    /** Stores and indexes a block, and connects it if it extends the best chain. */
    method StoreAndConnect(block: Block, steps: Steps) returns (r: Outcome, node: BlockNode)
      requires Valid() && params.hashOf(block.header) !in index && block.header.prev in index
      requires Room(index[block.header.prev].height + 1)
      modifies this, bestChain, bestChain.buf
      ensures Valid() && old(history) <= history && (bestChain.buf == old(bestChain.buf) || fresh(bestChain.buf))
      ensures r == if !steps.flushNode then Failed(DatabaseError)
                   else if old(index)[block.header.prev] != old(Tip()) then Failed(NotExtendingTip)
                   else Connection(steps)
      ensures var hash := params.hashOf(block.header);
              && index == old(index)[hash := node] && hash in db.stored && fresh(node) && node.hash == hash
              && node.BlockHeader() == block.header && node.votes == block.votes
              && node.parent == old(index)[block.header.prev] && node.height == node.parent.height + 1
      ensures node.status == if steps.flushNode && node.parent == old(Tip()) then Join(DATA_STORED, Marks(steps)) else DATA_STORED
      ensures Path(Tip()) == old(Path(Tip())) + if r.Done? then [node] else []
      ensures if r.Done? then Describes(stateSnapshot, Tip()) else stateSnapshot == old(stateSnapshot)
      ensures old(Narrow()) ==> Narrow()
    {
      hide Valid, Narrow, Tip, Linked, Path, Describes, Connection, Marks;
      node := IndexBlock(block);
      var flushed := FlushToDB(steps.flushNode);
      if !flushed { return Failed(DatabaseError), node; }
      r := ConnectBestChain(node, block, steps);
      TipIndexed(node);
      PrevIndexed(node.hash);
      PathPush(node);
    }

    /** Stores a block and indexes a node for it. */
    method IndexBlock(block: Block) returns (node: BlockNode)
      requires Valid() && params.hashOf(block.header) !in index && block.header.prev in index
      requires Room(index[block.header.prev].height + 1)
      modifies this`index, this`dirty, this`db, this`history
      ensures Valid() && Tip() == old(Tip()) && old(history) <= history && fresh(node)
      ensures var hash := params.hashOf(block.header);
              node.hash == hash && index == old(index)[hash := node] && node in dirty && hash in db.stored
      ensures node.parent == old(index)[block.header.prev] && node.height == node.parent.height + 1
      ensures node.BlockHeader() == block.header && node.votes == block.votes && node.status == DATA_STORED
      ensures old(Narrow()) ==> Narrow()
    {
      hide Valid, Narrow, Tip, Linked, Path;
      var hash := params.hashOf(block.header);
      StoreBlock(hash);
      PrevIndexed(block.header.prev);
      node := new BlockNode(hash, block.header.fields, index[block.header.prev], block.votes);
      node.status := DATA_STORED;
      AddNode(node);
    }

    method StoreBlock(hash: BlockHash)
      requires Valid()
      modifies this`db, this`history
      ensures Valid() && Tip() == old(Tip()) && old(history) <= history && hash in db.stored && db == old(db).(stored := db.stored)
      ensures old(Narrow()) ==> Narrow()
    {
      hide ValidNear, SnapshotOk, RowFits, TreeOk, RowsFit, Clean, Closed, DirtyOk, Held, MainOk, Lists, Loadable, Linked, Path, IsMedian;
      ghost var st := Statuses();
      StoreKeeps(params, index, st, dirty, db, bestChain.Tip(), hash);
      ConsistentLoadable(params, index, db.(stored := db.stored + {hash}), bestChain.Tip());
      assert db in history;
      Commit(db.(stored := db.stored + {hash}));
      assert Statuses() == st;
    }

    lemma PrevIndexed(hash: BlockHash)
      requires Valid() && hash in index
      ensures Linked(index[hash]) && index[hash].hash == hash && Indexed(index, index[hash])
      ensures db.Db? && hash in db.stored
    {
      hide Lists, RowsFit, Clean, Closed, SnapshotOk, Recorded, Path, Linked, MainOk, DirtyOk;
    }

    /** What has to be detached and attached to make `node` the tip.  A known invalid
        block on the way gives empty lists and marks the blocks above it. */
    method GetReorganizeNodes(node: BlockNode, ghost tip: BlockNode, ghost path: seq<BlockNode>)
      returns (detach: seq<BlockNode>, attach: seq<BlockNode>, ghost f: nat, ghost bad: nat)
      requires Valid() && Indexed(index, node) && node.parent != null
      requires Linked(node) && path == Path(node) && tip == Tip()
      modifies this`dirty, path
      ensures Valid() && tip == Tip() && f <= bad <= node.height && ForkAt(tip, node, f)
      ensures LastInvalid(path, f, bad) && MarkedAbove(path, f, bad)
      ensures if bad > f then detach == [] && attach == []
              else Reaches(tip, detach, attach, node) && Attachable(tip, attach)
      ensures node in Path(tip) ==> attach == [] && |detach| == tip.height - node.height
      ensures detach == [] && attach == [] <==> bad > f || node == tip
    {
      hide Valid, Narrow, Tip, Path, Linked, ForkAt, Reaches;
      var fork := FindFork(node, tip);
      f := fork.height;
      EmptyLists(tip, node, f);
      detach, attach := [], [];
      if node.parent.status.KnownInvalid() {
        InvalidParent(node, f);
        bad := node.height - 1;
        OffMain(tip, node, f, node.height);
        MarkAbove([node], node, tip, path, f, bad);
        return;
      }
      detach, attach, bad := CollectNodes(node, fork, tip, path);
    }

    /** The lists once the fork is known. */
    method CollectNodes(node: BlockNode, fork: BlockNode, ghost tip: BlockNode, ghost path: seq<BlockNode>)
      returns (detach: seq<BlockNode>, attach: seq<BlockNode>, ghost bad: nat)
      requires Valid() && Indexed(index, node) && Linked(node) && path == Path(node) && tip == Tip()
      requires 0 <= fork.height <= node.height && fork.height <= tip.height && ForkAt(tip, node, fork.height)
      requires path[fork.height] == fork == Path(tip)[fork.height]
      modifies this`dirty, path
      ensures Valid() && tip == Tip() && fork.height <= bad <= node.height
      ensures bad > fork.height ==> detach == [] && attach == [] && old(path[bad].status.KnownInvalid())
      ensures forall i | bad < i < |path| :: !old(path[i].status.KnownInvalid())
      ensures MarkedAbove(path, fork.height, bad)
      ensures bad == fork.height ==>
                && Reaches(tip, detach, attach, node) && Attachable(tip, attach)
                && |attach| == node.height - bad && |detach| == tip.height - bad
    {
      hide Valid, Narrow, Tip, Path, Linked, ForkAt, Reaches;
      var stop;
      attach, stop := WalkAttach(node, fork);
      detach, bad := [], stop.height;
      AttachOff(node, tip, fork.height, bad);
      assert forall i | bad < i < |path| :: path[i] == attach[i - bad - 1];
      if stop != fork {
        MarkAbove(attach, node, tip, path, fork.height, bad);
        attach := [];
        return;
      }
      detach := WalkDetach(fork, tip);
      AttachStep(tip, node, bad, detach);
    }

    method FindFork(node: BlockNode, ghost tip: BlockNode) returns (fork: BlockNode)
      requires Valid() && Indexed(index, node) && Linked(node) && tip == Tip()
      ensures 0 <= fork.height <= node.height && fork.height <= tip.height
      ensures Path(node)[fork.height] == fork == Path(tip)[fork.height] && ForkAt(tip, node, fork.height)
    {
      hide Consistent, SnapshotOk, Recorded, Path, Linked;
      SameRoot(node);
      var found := bestChain.FindFork(node);
      assert Path(tip)[..found.height + 1][found.height] == Path(node)[..found.height + 1][found.height];
      return found;
    }

    /** These nodes may be attached: they are indexed, off the main chain, distinct and not known to be invalid. */
    ghost predicate Attachable(tip: BlockNode, attach: seq<BlockNode>)
      requires Linked(tip)
      reads this, attach
    {
      && (forall n | n in attach :: Indexed(index, n) && n.parent != null && n !in Path(tip) && !n.status.KnownInvalid())
      && forall i, j | 0 <= i < j < |attach| :: attach[i] != attach[j]
    }

    /** The nodes from above `fork` up to `node`, or from above the last invalid one. */
    method WalkAttach(node: BlockNode, fork: BlockNode) returns (attach: seq<BlockNode>, stop: BlockNode)
      requires Linked(node) && 0 <= fork.height <= node.height && Path(node)[fork.height] == fork
      ensures fork.height <= stop.height <= node.height && Path(node)[stop.height] == stop
      ensures attach == Path(node)[stop.height + 1..] && forall n | n in attach :: !n.status.KnownInvalid()
      ensures stop != fork ==> stop.status.KnownInvalid()
    {
      hide Path, Linked;
      ghost var path := Path(node);
      attach := [];
      var n: BlockNode? := node;
      while n != null && n != fork
        invariant n != null && fork.height <= n.height <= node.height && path[n.height] == n
        invariant attach == path[n.height + 1..] && forall m | m in attach :: !m.status.KnownInvalid()
        decreases n.height
      {
        if n.status.KnownInvalid() { return attach, n; }
        PathOfPath(node, n.height);
        attach := [n] + attach;
        n := n.parent;
      }
      return attach, n;
    }

    /** The nodes from the tip down to above `fork`. */
    method WalkDetach(fork: BlockNode, ghost tip: BlockNode) returns (detach: seq<BlockNode>)
      requires Valid() && tip == Tip() && 0 <= fork.height <= tip.height && Path(tip)[fork.height] == fork
      ensures |detach| == tip.height - fork.height
      ensures forall i | 0 <= i < |detach| :: detach[i] == Path(tip)[tip.height - i]
    {
      hide Consistent, SnapshotOk, Recorded, Path, Linked;
      ghost var path := Path(tip);
      detach := [];
      var n: BlockNode? := bestChain.Tip();
      while n != null && n != fork
        invariant n != null && fork.height <= n.height <= tip.height && path[n.height] == n
        invariant |detach| == tip.height - n.height
        invariant forall i | 0 <= i < |detach| :: detach[i] == path[tip.height - i]
        decreases n.height
      {
        PathOfPath(tip, n.height);
        detach := detach + [n];
        n := n.parent;
      }
      PathOfPath(tip, fork.height);
    }

    method MarkAbove(above: seq<BlockNode>, node: BlockNode, ghost tip: BlockNode, ghost path: seq<BlockNode>, ghost f: nat, ghost bad: nat)
      requires Valid() && tip == Tip() && Linked(node) && path == Path(node) && f < bad <= node.height && above == path[bad + 1..]
      requires forall n | n in above :: Indexed(index, n) && n !in Path(tip)
      modifies this`dirty, above
      ensures Valid() && tip == Tip() && MarkedAbove(path, f, bad)
    {
      hide Valid, Narrow, Tip, Path, Linked;
      PathHeights(node);
      MarkInvalid(above);
      forall i | 0 <= i < |path|
        ensures path[i].status == if bad < i then old(path[i].status).(invalidAncestor := true) else old(path[i].status)
      {
        if bad < i { assert above[i - bad - 1] == path[i]; }
      }
    }

    /** Marks nodes off the main chain as having an invalid ancestor. */
    method MarkInvalid(nodes: seq<BlockNode>)
      requires Valid() && (forall i, j | 0 <= i < j < |nodes| :: nodes[i] != nodes[j])
      requires forall n | n in nodes :: Indexed(index, n) && n !in Path(Tip())
      modifies this`dirty, nodes
      ensures Valid() && Tip() == old(Tip())
      ensures forall n | n in nodes :: n.status == old(n.status).(invalidAncestor := true)
    {
      hide Valid, Narrow, Tip, Path, Linked;
      for i := 0 to |nodes|
        invariant Valid() && Tip() == old(Tip())
        invariant forall k | 0 <= k < i :: nodes[k].status == old(nodes[k].status).(invalidAncestor := true)
        invariant forall k | i <= k < |nodes| :: nodes[k].status == old(nodes[k].status)
      {
        SetStatusFlags(nodes[i], INVALID_ANCESTOR);
      }
    }

    /** Replaces the end of the best chain, after checking all blocks to attach.
        The blocks are loaded from the database, which does not keep their votes. */
    method ReorganizeChain(detach: seq<BlockNode>, attach: seq<BlockNode>, ghost tip: BlockNode,
                           undo: nat -> Undo, redo: nat -> Redo) returns (r: Outcome)
      requires Valid() && tip == Tip() && Attachable(tip, attach)
      requires forall n | n in detach :: Indexed(index, n) && n.parent != null && Room(n.height)
      requires forall n | n in attach :: Room(n.height)
      modifies this`dirty, this`db, this`history, this`stateSnapshot, bestChain, bestChain.buf, attach
      ensures Valid() && old(history) <= history
      ensures InStep(tip, detach, attach) ==> r != Failed(NotExtendingTip)
      ensures InStep(tip, detach, attach) && AllPass(detach, attach, undo, redo) ==> r.Done?
      ensures InStep(tip, detach, attach) && r.Done? ==> Tip() == NewTip(tip, detach, attach)
      ensures InStep(tip, detach, attach) ==> OnTheWayDown(tip, detach, Tip()) || OnTheWayUp(tip, detach, attach, Tip())
      ensures InStep(tip, detach, attach) && r.Done? && attach != [] ==> (Describes(stateSnapshot, Tip()) <==> Tip().votes == 0)
    {
      hide Valid, Narrow, Tip, Path, Linked, Describes, InStep, NewTip, OnTheWayDown, OnTheWayUp;
      if InStep(tip, detach, attach) { StartOfStep(tip, detach, attach); }
      if detach == [] && attach == [] {
        NothingToDo(tip);
        return Done;
      }
      var fits := Aligned(detach, attach, tip);
      if !fits { return Failed(NotExtendingTip); }
      var loaded := LoadDetached(|detach|, undo);
      if !loaded { return Failed(DatabaseError); }
      r := CheckAttach(attach, tip, redo);
      if r.Failed? { return; }
      r := ApplyLists(detach, attach, tip, undo, redo);
    }

    /** Detaches and then attaches blocks that have been checked. */
    method ApplyLists(detach: seq<BlockNode>, attach: seq<BlockNode>, ghost tip: BlockNode,
                      undo: nat -> Undo, redo: nat -> Redo) returns (r: Outcome)
      requires Valid() && tip == Tip()
      requires forall n | n in detach :: Indexed(index, n) && n.parent != null && Room(n.height)
      requires forall n | n in attach ::
                 Indexed(index, n) && n.parent != null && Room(n.height) && n.status.valid && !n.status.KnownInvalid()
      modifies this`dirty, this`db, this`history, this`stateSnapshot, bestChain, bestChain.buf
      ensures Valid() && old(history) <= history
      ensures InStep(tip, detach, attach) ==> r != Failed(NotExtendingTip)
      ensures InStep(tip, detach, attach) && AllPass(detach, attach, undo, redo) ==> r.Done?
      ensures InStep(tip, detach, attach) && r.Done? ==> Tip() == NewTip(tip, detach, attach)
      ensures InStep(tip, detach, attach) ==> OnTheWayDown(tip, detach, Tip()) || OnTheWayUp(tip, detach, attach, Tip())
      ensures InStep(tip, detach, attach) && r.Done? && attach != [] ==> (Describes(stateSnapshot, Tip()) <==> Tip().votes == 0)
    {
      hide Valid, Narrow, Tip, Path, Linked, Describes, OnTheWayDown, OnTheWayUp;
      r := DetachAll(detach, attach, tip, undo);
      if r.Failed? { return; }
      r := AttachAll(detach, attach, tip, redo);
    }

    /** Loads the blocks to detach and what they spent. */
    static method LoadDetached(n: nat, undo: nat -> Undo) returns (loaded: bool)
      ensures loaded <==> forall k | 0 <= k < n :: undo(k).load
    {
      for i := 0 to n
        invariant forall k | 0 <= k < i :: undo(k).load
      {
        if !undo(i).load { return false; }
      }
      return true;
    }

    /** The two assertions on the lists themselves. */
    method Aligned(detach: seq<BlockNode>, attach: seq<BlockNode>, ghost tip: BlockNode) returns (fits: bool)
      requires Valid() && tip == Tip()
      requires forall n | n in detach + attach :: n.parent != null
      ensures InStep(tip, detach, attach) ==> fits
    {
      hide Consistent, SnapshotOk, Recorded, Path, Linked;
      if detach != [] && detach[0].hash != bestChain.Tip().hash { return false; }
      if attach != [] && detach != [] && attach[0].parent.hash != detach[|detach| - 1].parent.hash {
        if InStep(tip, detach, attach) {
          PathOfPath(tip, tip.height - |detach| + 1);
        }
        return false;
      }
      return true;
    }

    /** Validates the blocks to attach in order.  A block that breaks a rule is marked,
        and so are the blocks on top of it. */
    method CheckAttach(attach: seq<BlockNode>, ghost tip: BlockNode, redo: nat -> Redo) returns (r: Outcome)
      requires Valid() && tip == Tip() && Attachable(tip, attach)
      modifies this`dirty, attach
      ensures Valid() && tip == Tip() && r != Failed(NotExtendingTip)
      ensures (forall i | 0 <= i < |attach| :: redo(i).load && redo(i).check.Pass?) ==> r.Done?
      ensures r.Done? ==> forall n | n in attach :: n.status.valid && !n.status.KnownInvalid()
      ensures r == Failed(CheckRefused(RuleError)) ==>
                exists k | 0 <= k < |attach| :: Refused(attach, k)
    {
      hide Valid, Narrow, Tip, Path, Linked;
      for i := 0 to |attach|
        invariant Valid() && tip == Tip()
        invariant forall k | 0 <= k < |attach| :: !attach[k].status.KnownInvalid()
        invariant forall k | 0 <= k < i :: attach[k].status.valid
        invariant forall k | i <= k < |attach| :: attach[k].status == old(attach[k].status)
      {
        if !redo(i).load { return Failed(DatabaseError); }
        if !attach[i].status.valid {
          if !redo(i).check.Pass? {
            if redo(i).check.RuleError? { Refuse(attach, i, tip); }
            return Failed(CheckRefused(redo(i).check));
          }
          SetStatusFlags(attach[i], VALID);
        }
      }
      return Done;
    }

    method Refuse(attach: seq<BlockNode>, i: nat, ghost tip: BlockNode)
      requires Valid() && tip == Tip() && i < |attach| && Attachable(tip, attach)
      modifies this`dirty, attach
      ensures Valid() && tip == Tip() && Refused(attach, i)
    {
      hide Valid, Narrow, Tip, Path, Linked;
      SetStatusFlags(attach[i], VALIDATE_FAILED);
      var rest := attach[i + 1..];
      MarkInvalid(rest);
      assert forall k | i < k < |attach| :: attach[k] == rest[k - i - 1];
    }

    method DetachAll(detach: seq<BlockNode>, ghost attach: seq<BlockNode>, ghost tip: BlockNode, undo: nat -> Undo) returns (r: Outcome)
      requires Valid() && tip == Tip()
      requires forall n | n in detach :: Indexed(index, n) && n.parent != null && Room(n.height)
      modifies this`dirty, this`db, this`history, this`stateSnapshot, bestChain, bestChain.buf
      ensures Valid() && old(history) <= history && (bestChain.buf == old(bestChain.buf) || fresh(bestChain.buf))
      ensures InStep(tip, detach, attach) ==> r != Failed(NotExtendingTip) && (r.Done? ==> Tip() == Path(tip)[tip.height - |detach|])
      ensures InStep(tip, detach, attach) && (forall i | 0 <= i < |detach| :: undo(i).AllPass()) ==> r.Done?
      ensures InStep(tip, detach, attach) ==> OnTheWayDown(tip, detach, Tip())
    {
      hide Valid, Narrow, Tip, Path, Linked, Describes, InStep, OnTheWayDown;
      ghost var good := InStep(tip, detach, attach);
      if good { StartOfStep(tip, detach, attach); }
      for i := 0 to |detach|
        invariant Valid() && old(history) <= history && (bestChain.buf == old(bestChain.buf) || fresh(bestChain.buf))
        invariant good ==> |detach| <= tip.height && Tip() == Path(tip)[tip.height - i]
      {
        if good { StepDown(tip, detach, attach, i); }
        if !undo(i).view { return Failed(DatabaseError); }
        r := DisconnectBlock(detach[i], Block(detach[i].BlockHeader(), 0), undo(i).fetch, undo(i).flush, undo(i).commit);
        if r.Failed? { return; }
      }
      if good { StepDown(tip, detach, attach, |detach|); }
      return Done;
    }

    method AttachAll(ghost detach: seq<BlockNode>, attach: seq<BlockNode>, ghost tip: BlockNode, redo: nat -> Redo) returns (r: Outcome)
      requires Valid() && Linked(tip)
      requires InStep(tip, detach, attach) ==> Tip() == Path(tip)[tip.height - |detach|]
      requires forall n | n in attach ::
                 Indexed(index, n) && n.parent != null && Room(n.height) && n.status.valid && !n.status.KnownInvalid()
      modifies this`dirty, this`db, this`history, this`stateSnapshot, bestChain, bestChain.buf
      ensures Valid() && old(history) <= history
      ensures InStep(tip, detach, attach) ==> r != Failed(NotExtendingTip) && (r.Done? ==> Tip() == NewTip(tip, detach, attach))
      ensures InStep(tip, detach, attach) && (forall i | 0 <= i < |attach| :: redo(i).AllPass()) ==> r.Done?
      ensures InStep(tip, detach, attach) ==> OnTheWayUp(tip, detach, attach, Tip())
      ensures InStep(tip, detach, attach) && r.Done? && attach != [] ==> (Describes(stateSnapshot, Tip()) <==> Tip().votes == 0)
    {
      hide Valid, Narrow, Tip, Path, Linked, Describes;
      ghost var good := InStep(tip, detach, attach);
      for i := 0 to |attach|
        invariant Valid() && old(history) <= history && (bestChain.buf == old(bestChain.buf) || fresh(bestChain.buf))
        invariant good ==> Tip() == Before(Path(tip)[tip.height - |detach|], attach, i)
        invariant good && i > 0 ==> (Describes(stateSnapshot, Tip()) <==> Tip().votes == 0)
      {
        if !redo(i).view { return Failed(DatabaseError); }
        r := ConnectBlock(attach[i], Block(attach[i].BlockHeader(), 0), redo(i).warn, redo(i).flush, redo(i).commit);
        if r.Failed? { return; }
      }
      return Done;
    }

    lemma NothingToDo(tip: BlockNode)
      requires Valid() && tip == Tip()
      ensures NewTip(tip, [], []) == tip
    {
    }

    /** Finding the lists and applying them: with no invalid block on the way and all steps
        passing, the chain ends in `node`; with an invalid one nothing is connected. */
    method MakeTip(node: BlockNode, ghost tip: BlockNode, ghost path: seq<BlockNode>, undo: nat -> Undo, redo: nat -> Redo)
      returns (r: Outcome, ghost f: nat, ghost bad: nat)
      requires Valid() && Indexed(index, node) && node.parent != null
      requires Linked(node) && path == Path(node) && tip == Tip() && Room(node.height) && Room(tip.height)
      modifies this`dirty, this`db, this`history, this`stateSnapshot, bestChain, bestChain.buf, path
      ensures Valid() && old(history) <= history && f <= bad <= node.height && ForkAt(tip, node, f) && LastInvalid(path, f, bad)
      ensures r != Failed(NotExtendingTip)
      ensures bad == f && r.Done? ==> Tip() == node
      ensures bad > f ==> r.Done? && Tip() == tip
      ensures (forall i :: undo(i).AllPass()) && (forall i :: redo(i).AllPass()) ==> r.Done?
      ensures (forall i :: undo(i) == Undo(true, true, true, true, true)) && (forall i :: redo(i) == Redo(true, Pass, true, Pass, true, Pass)) ==>
                r.Done?
    {
      hide Valid, Narrow, Tip, Path, Linked, Describes, InStep, NewTip, ForkAt;
      var detach, attach;
      detach, attach, f, bad := GetReorganizeNodes(node, tip, path);
      if bad > f {
        EmptyInStep(tip);
      } else {
        DetachIndexed(tip, detach, attach);
        AttachRoom(tip, node, detach, attach);
      }
      assert forall i | 0 <= i < |attach| :: attach[i] in attach && attach[i] in path;
      r := ReorganizeChain(detach, attach, tip, undo, redo);
    }

    lemma DetachIndexed(tip: BlockNode, detach: seq<BlockNode>, attach: seq<BlockNode>)
      requires Valid() && tip == Tip() && InStep(tip, detach, attach) && Room(tip.height)
      ensures forall n | n in detach :: Indexed(index, n) && n.parent != null && Room(n.height)
    {
      hide Lists, RowsFit, Clean, Closed, Held, SnapshotOk, Recorded, Path, Linked, DirtyOk, TreeOk;
      forall i | 0 <= i < |detach| ensures Indexed(index, detach[i]) && detach[i].parent != null && Room(detach[i].height) {
        PathOfPath(tip, tip.height - i);
        assert Indexed(index, Path(tip)[tip.height - i]);
      }
    }

    /** Every branch starts at the same genesis node. */
    lemma SameRoot(node: BlockNode)
      requires Valid() && Indexed(index, node) && Linked(node)
      ensures Path(node)[0] == Path(Tip())[0]
    {
      hide Consistent, SnapshotOk, Recorded, Path, Linked;
      TipIndexed(node);
      var tip := bestChain.Tip();
      TreeIsOk();
      OneRoot(params, index, node);
      OneRoot(params, index, tip);
    }

    lemma TreeIsOk()
      requires Valid()
      ensures TreeOk(params, index)
    {
      hide Lists, RowsFit, Clean, Closed, Held, SnapshotOk, Recorded, Path, Linked, MainOk, DirtyOk, TreeOk;
    }

    /** A known invalid parent is not on the main chain. */
    lemma InvalidParent(node: BlockNode, f: nat)
      requires Valid() && Linked(node) && node.parent != null && node.parent.status.KnownInvalid()
      requires ForkAt(Tip(), node, f)
      ensures f < node.height - 1 && Path(node)[node.height - 1] == node.parent
    {
      hide Consistent, SnapshotOk, Recorded, Path, Linked;
      LinkedHeight(node);
      PathOfPath(node, node.height);
      if f >= node.height - 1 { SharedSound(node, f, node.height - 1); }
    }

    lemma SharedSound(node: BlockNode, f: nat, i: nat)
      requires Valid() && Linked(node) && i <= f && ForkAt(Tip(), node, f)
      ensures !Path(node)[i].status.KnownInvalid()
    {
      hide Lists, RowsFit, Clean, Closed, Held, SnapshotOk, Recorded, Path, Linked, DirtyOk, TreeOk;
      var tip := bestChain.Tip();
      assert Path(tip)[..f + 1][i] == Path(node)[..f + 1][i];
      assert Sound(Statuses(), Path(tip)[i]);
    }

    lemma AttachOff(node: BlockNode, tip: BlockNode, f: nat, bad: nat)
      requires Valid() && tip == Tip() && Indexed(index, node) && Linked(node) && f <= bad <= node.height && ForkAt(tip, node, f)
      ensures forall n | n in Path(node)[bad + 1..] :: n !in Path(tip) && Indexed(index, n) && n.parent != null
      ensures var attach := Path(node)[bad + 1..]; forall i, j | 0 <= i < j < |attach| :: attach[i] != attach[j]
    {
      hide Valid, Narrow, Tip, Path, Linked, ForkAt, NodeOk;
      var attach := Path(node)[bad + 1..];
      TreeIsOk();
      forall i | 0 <= i < |attach| ensures attach[i] !in Path(tip) && Indexed(index, attach[i]) && attach[i].parent != null {
        OffMain(tip, node, f, bad + 1 + i);
        AncestorsIndexed(index, node, bad + 1 + i);
        PathOfPath(node, bad + 1 + i);
      }
      PathHeights(node);
    }

    /** The tip is indexed and may be built upon. */
    lemma TipSound()
      requires Valid()
      ensures Tip().hash in index && index[Tip().hash] == Tip() && !Tip().status.KnownInvalid()
    {
      hide Lists, RowsFit, Clean, Closed, Held, SnapshotOk, Recorded, Path, Linked, DirtyOk, TreeOk;
      var tip := bestChain.Tip();
      assert Path(tip)[tip.height] == tip;
    }

    lemma SamePath(tip: BlockNode)
      requires Valid() && Linked(tip) && Path(Tip()) == Path(tip)
      ensures Tip() == tip
    {
      hide Consistent, SnapshotOk, Recorded, Linked;
      var t := bestChain.Tip();
      assert Path(t)[t.height] == Path(tip)[tip.height];
    }

    lemma LastOfPath(tip: BlockNode, node: BlockNode)
      requires Valid() && Linked(tip) && Path(Tip()) == Path(tip) + [node]
      ensures node == Tip() && node.parent == tip && Indexed(index, node)
    {
      hide Consistent, SnapshotOk, Recorded, Path, Linked;
      TipSound();
      PathOfPath(bestChain.Tip(), tip.height + 1);
    }

    lemma TipIndexed(node: BlockNode)
      requires Valid() && Indexed(index, node)
      ensures Linked(node) && Indexed(index, Tip()) && db.Db? && Recorded(params, history, db)
      ensures node.parent != null ==> Indexed(index, node.parent)
    {
      hide Lists, RowsFit, Clean, Closed, Held, SnapshotOk, Recorded, Path, Linked;
      var tip := bestChain.Tip();
      LinkedHeight(tip);
      assert Path(tip)[tip.height] == tip;
    }

    lemma NearStep(node: BlockNode, total: nat)
      requires Narrow() && Linked(node) && node.parent == Tip()
      ensures db.Db? && node.height >= 0 && ValidNear(index, Statuses(), node)
      ensures RecordedNear(params, history + [Connected(db, node.hash, node.height, total)])
    {
      hide Lists, RowsFit, Clean, Closed, Held, Path, Linked, SnapshotOk, Loadable, TreeOk, ValidNear, RowsNear;
      ConnectNear(params, index, Statuses(), bestChain.Tip(), node, db, total);
    }

    lemma ConnectStep(node: BlockNode, state: Snapshot)
      requires Valid() && dirty == {} && Indexed(index, node) && node.parent == Tip()
      requires node.status.valid && !node.status.KnownInvalid()
      requires state == NewBestState(params, node, stateSnapshot.totalTxns + params.bodyOf(node.hash).numTxns,
                                     node.fields, state.medianTime, state.votes)
      requires IsMedian(Window(node, MEDIAN_TIME_BLOCKS), state.medianTime)
      ensures db.Db? && Linked(node) && node.height >= 0 && SnapshotOk(params, state, node)
      ensures var next := Connected(db, node.hash, node.height, state.totalTxns);
              Consistent(params, index, Statuses(), {}, next, node) && Loadable(params, next)
    {
      hide Lists, RowsFit, Clean, Closed, Held, Recorded, Path, Linked, Txns, IsMedian, Window, Loadable, TreeOk;
      TipIndexed(node);
      ConnectKeeps(params, index, Statuses(), db, bestChain.Tip(), node, state.totalTxns);
      PathPush(node);
      LinkedHeight(node);
      TxnsPush(params.bodyOf, Hashes(Path(bestChain.Tip())), node.hash);
      ConsistentLoadable(params, index, Connected(db, node.hash, node.height, state.totalTxns), node);
    }
  }

  /** A run over any blocks, passing over those already indexed: the best chain only ever
      grows at its end, by at most one block a step. */
  method Run(chain: BlockChain, blocks: seq<Block>, steps: seq<Steps>)
    requires chain.Valid() && |steps| == |blocks|
    requires forall h | h in chain.index :: Room(chain.index[h].height + |blocks|)
    modifies chain, chain.bestChain, chain.bestChain.buf
    ensures chain.Valid() && old(chain.history) <= chain.history
    ensures old(Path(chain.Tip())) <= Path(chain.Tip()) && |Path(chain.Tip())| <= |old(Path(chain.Tip()))| + |blocks|
    ensures old(Describes(chain.stateSnapshot, chain.Tip())) ==> Describes(chain.stateSnapshot, chain.Tip())
    ensures old(chain.Narrow()) ==> chain.Narrow()
    ensures forall h | h in chain.index && h !in old(chain.index) ::
              chain.index[h].parent != null && !chain.index[h].parent.status.validateFailed && !chain.index[h].parent.status.invalidAncestor
  {
    hide BlockChain.Valid, BlockChain.Narrow, BlockChain.Tip, Path, Linked, Describes;
    for i := 0 to |blocks|
      invariant chain.Valid() && old(chain.history) <= chain.history
      invariant chain.bestChain.buf == old(chain.bestChain.buf) || fresh(chain.bestChain.buf)
      invariant forall h | h in chain.index :: Room(chain.index[h].height + |blocks| - i)
      invariant old(Path(chain.Tip())) <= Path(chain.Tip()) && |Path(chain.Tip())| <= |old(Path(chain.Tip()))| + i
      invariant old(Describes(chain.stateSnapshot, chain.Tip())) ==> Describes(chain.stateSnapshot, chain.Tip())
      invariant old(chain.Narrow()) ==> chain.Narrow()
      invariant forall h | h in old(chain.index) :: h in chain.index && chain.index[h] == old(chain.index)[h]
      invariant forall h | h in chain.index && h !in old(chain.index) ::
                  chain.index[h].parent != null && !chain.index[h].parent.status.validateFailed && !chain.index[h].parent.status.invalidAncestor
    {
      if chain.params.hashOf(blocks[i].header) !in chain.index {
        var r := chain.MaybeAcceptBlock(blocks[i], steps[i]);
      }
    }
  }

  /** A block on the tip whose full check breaks a rule, and a block on top of it: the first is
      indexed as failed and not connected, the second is refused and leaves no trace. */
  method RefusedChild(chain: BlockChain, block: Block, steps: Steps, child: Block, childSteps: Steps, ghost tip: BlockNode)
    returns (r: Outcome, r': Outcome)
    requires chain.Valid() && tip == chain.Tip() && Room(tip.height + 2)
    requires block.header.prev == tip.hash && chain.params.hashOf(block.header) !in chain.index
    requires steps.context && steps.store && steps.flushNode && steps.check.RuleError?
    requires child.header.prev == chain.params.hashOf(block.header)
    requires chain.params.hashOf(child.header) !in chain.index && chain.params.hashOf(child.header) != chain.params.hashOf(block.header)
    modifies chain, chain.bestChain, chain.bestChain.buf
    ensures chain.Valid() && chain.Tip() == tip
    ensures r == Failed(CheckRefused(RuleError)) && r' == Failed(InvalidAncestorBlock)
    ensures var hash := chain.params.hashOf(block.header);
            && hash in chain.index && chain.index == old(chain.index)[hash := chain.index[hash]]
            && chain.index[hash].status == Status(true, false, true, false)
    ensures chain.params.hashOf(child.header) !in chain.index
  {
    hide BlockChain.Valid, BlockChain.Narrow, BlockChain.Tip, Linked, Path, Describes;
    chain.TipSound();
    r := chain.MaybeAcceptBlock(block, steps);
    chain.SamePath(tip);
    r' := chain.MaybeAcceptBlock(child, childSteps);
    chain.SamePath(tip);
  }

  /** Putting a block on the best chain and taking it off again leaves a snapshot that
      describes the tip exactly when the block repeats the tip's fields and votes. */
  method OnAndOff(chain: BlockChain, block: Block, ghost tip: BlockNode)
    requires chain.Valid() && tip == chain.Tip() && Room(tip.height + 1)
    requires block.header.prev == tip.hash && chain.params.hashOf(block.header) !in chain.index
    modifies chain, chain.bestChain, chain.bestChain.buf
    ensures chain.Valid() && chain.Tip() == tip
    ensures Describes(chain.stateSnapshot, tip) <==>
              && block.header.fields.signature == tip.fields.signature && block.header.fields.publicKey == tip.fields.publicKey
              && block.header.fields.scale == tip.fields.scale && block.header.fields.reserved == tip.fields.reserved
              && block.votes == tip.votes
  {
    hide BlockChain.Valid, BlockChain.Narrow, BlockChain.Tip, Linked, Path, Describes;
    chain.TipSound();
    var r := chain.MaybeAcceptBlock(block, Steps(true, true, true, Pass, true, Pass, true, Pass, true));
    var node := chain.index[chain.params.hashOf(block.header)];
    chain.LastOfPath(tip, node);
    r := chain.DisconnectBlock(node, block, true, true, true);
  }

  /** For instance on top of a fresh genesis, which has one vote. */
  method StaleSnapshot(params: Params, block: Block) returns (chain: BlockChain)
    requires params.genesis.prev == ZERO_HASH && block.header.prev == params.GenesisHash()
    requires params.hashOf(block.header) != params.GenesisHash() && block.votes != 1
    ensures chain.Valid() && chain.Tip().votes == 1 && !Describes(chain.stateSnapshot, chain.Tip())
  {
    hide Linked, Path, Describes, Consistent, SnapshotOk, Recorded, BlockChain.Narrow;
    chain := new BlockChain(params);
    var tip := chain.bestChain.Tip();
    OnAndOff(chain, block, tip);
  }

  /** On the main chain the fork is the node itself, so that nothing is attached and all above
      it is detached; nothing at all is to be done exactly for the tip. */
  lemma EmptyLists(tip: BlockNode, node: BlockNode, f: nat)
    requires Linked(tip) && Linked(node) && ForkAt(tip, node, f)
    ensures node in Path(tip) <==> f == node.height
    ensures f <= tip.height && (f == node.height && f == tip.height <==> node == tip)
  {
    hide Path, Linked;
    if f < node.height {
      OffMain(tip, node, f, node.height);
    } else {
      assert Path(tip)[..f + 1][f] == Path(node)[..f + 1][f];
    }
    assert tip in Path(tip) by { assert Path(tip)[tip.height] == tip; }
  }

  /** How the steps of taking one block off end: loading it and what it spent, the utxo view,
      the previous block, the flush and the update. */
  datatype Undo = Undo(load: bool, view: bool, fetch: bool, flush: bool, commit: bool) {
    predicate AllPass() {
      load && view && fetch && flush && commit
    }
  }

  /** The same for attaching one block. */
  datatype Redo = Redo(load: bool, check: Verdict, view: bool, warn: Verdict, flush: bool, commit: Verdict) {
    predicate AllPass() {
      load && check.Pass? && view && warn.Pass? && flush && commit.Pass?
    }
  }

  /** The node before `attach[i]` when the list is put on top of `base`. */
  function Before(base: BlockNode, attach: seq<BlockNode>, i: nat): BlockNode
    requires i <= |attach|
  {
    if i == 0 then base else attach[i - 1]
  }

  /** The lists fit the chain that ends in `tip`: the detached nodes are its last ones,
      newest first, and the attached ones grow from where these leave off. */
  ghost predicate InStep(tip: BlockNode, detach: seq<BlockNode>, attach: seq<BlockNode>)
    requires Linked(tip)
  {
    && |detach| <= tip.height
    && (forall i | 0 <= i < |detach| :: detach[i] == Path(tip)[tip.height - i])
    && forall i | 0 <= i < |attach| :: attach[i].parent == Before(Path(tip)[tip.height - |detach|], attach, i)
  }

  /** Where the chain may end while nodes are being detached: between the tip and the fork. */
  ghost predicate OnTheWayDown(tip: BlockNode, detach: seq<BlockNode>, n: BlockNode)
    requires Linked(tip) && |detach| <= tip.height
  {
    n in Path(tip)[tip.height - |detach|..]
  }

  /** And while nodes are being attached: at the fork or one of the attached nodes. */
  ghost predicate OnTheWayUp(tip: BlockNode, detach: seq<BlockNode>, attach: seq<BlockNode>, n: BlockNode)
    requires Linked(tip) && |detach| <= tip.height
  {
    n == Path(tip)[tip.height - |detach|] || n in attach
  }

  /** Where the chain ends after the lists have been applied. */
  ghost function NewTip(tip: BlockNode, detach: seq<BlockNode>, attach: seq<BlockNode>): BlockNode
    requires Linked(tip) && |detach| <= tip.height
  {
    Before(Path(tip)[tip.height - |detach|], attach, |attach|)
  }

  /** Applying the lists leads to `node`: dropping the detached nodes from the chain and
      appending the attached ones gives the path to `node`. */
  ghost predicate Reaches(tip: BlockNode, detach: seq<BlockNode>, attach: seq<BlockNode>, node: BlockNode)
    requires Linked(tip) && Linked(node)
  {
    && InStep(tip, detach, attach) && NewTip(tip, detach, attach) == node
    && Path(tip)[..|Path(tip)| - |detach|] + attach == Path(node)
  }

  /** The paths to `tip` and to `node` part above height `f`. */
  ghost predicate ForkAt(tip: BlockNode, node: BlockNode, f: nat)
    requires Linked(tip) && Linked(node)
  {
    f <= node.height && Path(node)[f].height == f && IsFork(Path(tip), Path(node), Path(node)[f])
  }

  /** Below the end of the path, `bad` is the highest invalid node above `f`, or `f` if there is none. */
  twostate predicate LastInvalid(path: seq<BlockNode>, f: nat, bad: nat)
    reads path
  {
    && (f < bad < |path| ==> old(path[bad].status.KnownInvalid()))
    && forall i | bad < i < |path| - 1 :: !old(path[i].status.KnownInvalid())
  }

  /** The nodes above an invalid one are marked, and no others. */
  twostate predicate MarkedAbove(path: seq<BlockNode>, f: nat, bad: nat)
    reads path
  {
    forall i | 0 <= i < |path| ::
      path[i].status == if f < bad < i then old(path[i].status).(invalidAncestor := true) else old(path[i].status)
  }

  /** Every step of a reorganisation succeeds. */
  ghost predicate AllPass(detach: seq<BlockNode>, attach: seq<BlockNode>, undo: nat -> Undo, redo: nat -> Redo) {
    && (forall i | 0 <= i < |detach| :: undo(i).AllPass())
    && (forall i | 0 <= i < |attach| :: redo(i).AllPass())
  }

  /** Block `k` failed validation and all that would come on top of it are marked. */
  ghost predicate Refused(attach: seq<BlockNode>, k: nat)
    requires k < |attach|
    reads attach
  {
    attach[k].status.validateFailed && forall i | k < i < |attach| :: attach[i].status.invalidAncestor
  }

  /** Above the fork the two paths share no node. */
  lemma OffMain(tip: BlockNode, node: BlockNode, f: nat, i: nat)
    requires Linked(tip) && Linked(node) && f < i <= node.height && ForkAt(tip, node, f)
    ensures Path(node)[i] !in Path(tip)
  {
    hide Path, Linked;
    PathOfPath(node, i);
    var n := Path(node)[i];
    if n in Path(tip) {
      var k :| 0 <= k < |Path(tip)| && Path(tip)[k] == n;
      PathOfPath(tip, k);
      assert false;
    }
  }

  lemma OneRoot(params: Params, index: Index, n: BlockNode)
    requires TreeOk(params, index) && Indexed(index, n) && Linked(n)
    ensures Path(n)[0] == index[params.GenesisHash()]
  {
    hide Path, Linked, IndexOk;
    LinkedHeight(n);
    AncestorsIndexed(index, n, 0);
    PathOfPath(n, 0);
    assert NodeOk(params, Path(n)[0]);
  }

  lemma AttachedInStep(tip: BlockNode, node: BlockNode, f: nat)
    requires Linked(tip) && Linked(node) && ForkAt(tip, node, f)
    ensures f <= tip.height && f <= node.height && Path(tip)[..f + 1] == Path(node)[..f + 1] && Path(tip)[f] == Path(node)[f]
    ensures var attach := Path(node)[f + 1..];
            && (forall i | 0 <= i < |attach| :: attach[i].parent == Before(Path(tip)[f], attach, i))
            && Before(Path(tip)[f], attach, |attach|) == node
  {
    hide Path, Linked;
    var attach := Path(node)[f + 1..];
    assert Path(tip)[..f + 1][f] == Path(node)[..f + 1][f];
    forall i | 0 <= i < |attach| ensures attach[i].parent == Before(Path(tip)[f], attach, i) {
      PathOfPath(node, f + 1 + i);
    }
  }

  lemma AttachStep(tip: BlockNode, node: BlockNode, f: nat, detach: seq<BlockNode>)
    requires Linked(tip) && Linked(node) && ForkAt(tip, node, f) && |detach| == tip.height - f
    requires forall i | 0 <= i < |detach| :: detach[i] == Path(tip)[tip.height - i]
    ensures Reaches(tip, detach, Path(node)[f + 1..], node)
  {
    hide Path, Linked, ForkAt, Before;
    AttachedInStep(tip, node, f);
    assert Path(node) == Path(node)[..f + 1] + Path(node)[f + 1..];
    assert |Path(tip)| - |detach| == f + 1 && tip.height - |detach| == f;
  }

  lemma StartOfStep(tip: BlockNode, detach: seq<BlockNode>, attach: seq<BlockNode>)
    requires Linked(tip) && InStep(tip, detach, attach)
    ensures |detach| <= tip.height && OnTheWayDown(tip, detach, tip)
  {
    hide Path, Linked;
    assert Path(tip)[tip.height - |detach|..][|detach|] == tip;
  }

  lemma StepDown(tip: BlockNode, detach: seq<BlockNode>, attach: seq<BlockNode>, i: nat)
    requires Linked(tip) && InStep(tip, detach, attach) && i <= |detach|
    ensures |detach| <= tip.height && OnTheWayDown(tip, detach, Path(tip)[tip.height - i])
    ensures i < |detach| ==> detach[i] == Path(tip)[tip.height - i] && detach[i].parent == Path(tip)[tip.height - i - 1]
  {
    hide Path, Linked;
    PathOfPath(tip, tip.height - i);
    assert Path(tip)[tip.height - |detach|..][|detach| - i] == Path(tip)[tip.height - i];
  }

  lemma EmptyInStep(tip: BlockNode)
    requires Linked(tip)
    ensures InStep(tip, [], []) && NewTip(tip, [], []) == tip
  {
  }

  lemma AttachRoom(tip: BlockNode, node: BlockNode, detach: seq<BlockNode>, attach: seq<BlockNode>)
    requires Linked(tip) && Linked(node) && Reaches(tip, detach, attach, node) && Room(node.height)
    ensures forall n | n in attach :: n in Path(node) && Room(n.height)
  {
    hide Path, Linked;
    PathHeights(node);
    var k := |Path(tip)| - |detach|;
    forall i | 0 <= i < |attach| ensures attach[i] in Path(node) && Room(attach[i].height) {
      assert Path(node)[k + i] == attach[i];
    }
  }

  lemma PathHeights(node: BlockNode)
    requires Linked(node)
    ensures forall i | 0 <= i <= node.height :: Path(node)[i].height == i
  {
    hide Path, Linked;
    forall i | 0 <= i <= node.height ensures Path(node)[i].height == i {
      PathOfPath(node, i);
    }
  }

  lemma FirstConsistent(params: Params, n: BlockNode, status: Status, db: Db)
    requires params.genesis == n.BlockHeader() && n.hash == params.GenesisHash() && n.parent == null && n.height == 0
    requires db == Db(map[NodeKey(n) := RowOf(n, status)], map[n.hash := 0], map[0 := n.hash],
                      Best(n.hash, 0, params.bodyOf(n.hash).numTxns), {n.hash})
    requires status.valid && !status.KnownInvalid()
    ensures Linked(n) && Path(n) == [n] && Txns(params.bodyOf, Hashes(Path(n))) == params.bodyOf(n.hash).numTxns
    ensures Consistent(params, map[n.hash := n], map[n.hash := status], {}, db, n) && Loadable(params, db)
  {
    hide KeyOf, RowOk, Txns, Path, Linked;
    FirstPath(params, n);
    var index := map[n.hash := n];
    assert TreeOk(params, index);
    assert RowsFit(params, index, db.rows) && Closed(index, db.rows);
    assert Lists(params, db, [n.hash]) by { FirstLists(params, n, status, db); }
    ConsistentLoadable(params, index, db, n);
  }

  lemma FirstPath(params: Params, n: BlockNode)
    requires n.parent == null && n.height == 0
    ensures Linked(n) && Path(n) == [n] && Hashes(Path(n)) == [n.hash]
    ensures Txns(params.bodyOf, [n.hash]) == params.bodyOf(n.hash).numTxns
  {
    assert [n.hash] == [] + [n.hash];
    TxnsPush(params.bodyOf, [], n.hash);
  }

  lemma FirstLists(params: Params, n: BlockNode, status: Status, db: Db)
    requires n.parent == null && n.height == 0 && status.valid && !status.KnownInvalid()
    requires db == Db(map[NodeKey(n) := RowOf(n, status)], map[n.hash := 0], map[0 := n.hash],
                      Best(n.hash, 0, params.bodyOf(n.hash).numTxns), {n.hash})
    ensures Lists(params, db, [n.hash])
  {
    hide KeyOf, Txns, Path, Linked;
    FirstPath(params, n);
  }

  lemma FirstMedian(n: BlockNode)
    requires n.parent == null
    ensures IsMedian(Window(n, MEDIAN_TIME_BLOCKS), n.fields.timestamp)
  {
    assert Window(n, MEDIAN_TIME_BLOCKS) == [n.fields.timestamp];
  }

  lemma NothingDirty(index: Index)
    ensures DirtyOk(index, {})
  {
  }
}
