# Verification of the node's chain state, storage codecs, address manager and notifications

A Dafny model of the parts of the node in which several pieces of state have to agree:

- **Accepting blocks** (`Chain`, `BlockIndex`, `Store`, `Restart`).  `BlockChain` is a class with the block index,
  the dirty set, the best chain view, the snapshot and the database.  Its invariant says that the tree is rooted at
  genesis and every node hashes to its key; that every node is saved or dirty; that no row is saved without its
  parent's; that the two main-chain buckets are mutual inverses listing exactly the best chain; that the best state
  record, the snapshot and the transaction total describe its tip; and that its nodes are valid, in memory and on disk.
  All operations keep it, every committed database state can be loaded, and loading establishes it again.
- **Reorganisation** (`Chain`).  Choosing, checking and applying the detach and attach lists.
- **Chain view, locators and queries** (`ChainTree`, `ChainView`, `Locator`, `ChainQuery`, `CfCheckpoint`, `Session`).
  `Session` runs the acceptance of blocks and the answers to getcfcheckpt requests together.
- **Codecs** (`Bytes`, `Options`, `Vlq`, `UtxoKey`, `Amount`, `Script`, `TxOut`, `Journal`, `BestState`, `Formats`).
  `Formats` fixes the bytes that the round trips of the others leave open.
- **Address manager** (`AddrBook`, `AddrEffects`, `AddrBuckets`, `AddrChance`, `AddrFile`, `AddrManager`).  `AddrBook`
  holds the manager's state as a value and its invariant, `AddrEffects` says what its two steps do, `AddrBuckets` when
  a new bucket outgrows its nominal size and `AddrChance` when a drawn address is accepted.  `AddrManager` is the class,
  whose methods are shown to perform the steps of that value in place.
- **Websocket notifications** (`Subscriptions`).
- **Difficulty and median time** (`Difficulty`, `MedianTime`).

Code outside the model enters as parameters: hash functions and the elliptic curve are function values, clocks and
random choices are arguments, and each check or database transaction that may fail gets its outcome as an argument,
so that every contract covers every combination of outcomes.  A block hash is taken to determine the block's
transactions (`Params.bodyOf`), and a block of a peer to determine its ancestors (`ChainQuery.Agrees`).  The genesis
header names the zero hash as its parent.

`dafny verify dfyconfig.toml` checks the project.

## Where code and promises differ

- blockchain/chainio.go:618-620 says that the keys of a transaction's outputs sort by index.  They do not from index
  16511 to 16512; `UtxoKey.KeyOrderIff` gives the exact condition and `UtxoKey.KeyOrderHolds` the smallest failing pair.
- blockchain/chainio.go:988 copies 32 of the 33 bytes of the public key into the best state record
  (`BestState.SurvivesIff`).
- blockchain/chain.go:573-580 says that the lists are empty when the node is not on a side chain.  For a node of the
  main chain below the tip the detach list holds the nodes above it (`Chain.BlockChain.GetReorganizeNodes`,
  `Chain.EmptyLists`).
- blockchain/chain.go:823-830 takes header fields and votes for the snapshot of the previous block from the removed one
  (`Chain.OnAndOff`, `Chain.StaleSnapshot`), and blocks loaded for a reorganisation carry no votes
  (`Chain.BlockChain.ReorganizeChain`).
- addrmgr/addrmanager.go:226 compares with "greater than", so that a new bucket may hold 65 addresses, one more than
  its nominal size (`AddrBuckets.OverfullAfterAdd`, `AddrBuckets.ReachesOverfull`).
- server.go:1118-1121 appends to the cached slice, and server.go:1186-1190 writes below its old length before a later
  missing header ends the request, so that a cache with spare capacity can be left holding entries of two branches
  (`CfCheckpoint.AnswerIsRight`, `CfCheckpoint.Checkpoints.SpoiledRun`).  This needs validated branches that part by
  more than their last block, and so a reorganisation.  The call that would reorganise is commented out at
  blockchain/chain.go:1297-1301, and without it the cache is never spoiled (`Session.Run`).
- blockchain/compress.go:472-497 computes codes modulo 2^64, and the codes of most amounts above a ninth of the
  range need more (`Amount.MachineRoundTrip`, `Amount.FirstLost`).
- blockchain/compress.go:463 gives 47 as the code of half a coin.  It is 48 (`Formats.HalfCoin`).
- blockchain/difficulty.go:96-132 shifts negative numbers, which rounds their magnitude up; a carry out of the mantissa
  leaves zero (`Difficulty.NegativeRounds`).
- addrmgr/addrmanager.go:675-687 leaves the two counters alone (`AddrBook.ResetIff`).

## Model

| member | source | states |
|---|---|---|
| `Chain.BlockChain.MaybeAcceptBlock` | blockchain/accept.go:29-114 | for every outcome of the checks, flushes and updates: exactly which error comes back, and connected exactly when all of them pass above the tip; a refused block leaves index, dirty set and database alone; an indexed one keeps its header, votes, parent and height, is valid exactly when its full check passed above the tip and marked as failed exactly when a rule was broken; the best chain is the old one or the old one plus this block; the whole consistency invariant is kept |
| `Chain.Run` | blockchain/accept.go:29-114 | over every run on any blocks, the old best chain stays a prefix, grows by at most one block a step, the history of committed states only grows, all of it can be loaded, and the invariant holds at the end; no block is indexed on top of one known to be invalid; with no reorganisation, every validated block keeps its parent on the best chain, in memory and in every committed state |
| `Chain.RefusedChild` | blockchain/accept.go:29-114 | after a block on the tip broke a rule in its full check it is indexed as failed and not connected, and every block on top of it is refused as having an invalid ancestor and leaves no trace |
| `Chain.BlockChain.StoreAndConnect` | blockchain/accept.go:67-113 | the part after the checks: stored, indexed, flushed and connected, with the result and status for every verdict |
| `Chain.ConnectionMeans` | blockchain/chain.go:1214-1267 | done exactly when check, warnings, one of the flushes and the update pass; valid exactly when the check passed; failed exactly when a rule error came back |
| `Chain.BlockChain.ConnectBestChain` | blockchain/chain.go:1197-1315 | a node is connected exactly when its parent is the tip and all steps pass; otherwise tip and snapshot stay; above the tip it becomes valid exactly when the check passes and failed exactly when a rule error comes back, which a rule error of the check always does |
| `Chain.BlockChain.ConnectToTip` | blockchain/chain.go:1214-1267 | the same for a node above the tip: result and status bits from the verdicts |
| `Chain.BlockChain.ConnectChecked` | blockchain/chain.go:1240-1264 | a checked block: a rule broken while connecting leaves the block both valid and failed, and off the chain |
| `Chain.BlockChain.NoteFailure` | blockchain/chain.go:1246-1254 | a broken rule is recorded in the status and the chain stays as it was |
| `Chain.BlockChain.ConnectBlock` | blockchain/chain.go:645-780 | for a block already checked: refused unless it extends the tip; on any failure tip and snapshot are the old ones; on success the node is the tip, the snapshot is that of the new chain, and it repeats the votes of the block passed in, not of the node |
| `Chain.BlockChain.Extend` | blockchain/chain.go:707-770 | database first, memory second: the committed state, in which the best state record and both main-chain buckets have moved on together, can be loaded before the memory follows |
| `Chain.BlockChain.DisconnectBlock` | blockchain/chain.go:787-908 | refused unless the node is the tip; which of fetch, flush and commit makes it fail, leaving tip and snapshot; on success the parent is the tip and totals, height and median are the parent's, while header fields and votes describe the parent exactly when the removed block has the same ones |
| `Chain.BlockChain.Retract` | blockchain/chain.go:832-898 | the update that takes a block off keeps the invariant and commits a loadable state |
| `Chain.OnAndOff` | blockchain/chain.go:787-908 | putting any block on the best chain and taking it off again leaves a snapshot that describes the tip exactly when the block repeats the header fields and votes of the tip |
| `Chain.StaleSnapshot` | blockchain/chain.go:823-830 | a snapshot that does not describe its block, reached from a new database |
| `Chain.BlockChain.IndexBlock` | blockchain/accept.go:67-87 | the block is stored before its node is indexed; the node is fresh, dirty, linked to the named parent and rebuilds the block's header |
| `Chain.BlockChain.StoreBlock` | blockchain/chainio.go:1461-1470 | storing a block changes nothing but the set of stored blocks |
| `Chain.BlockChain.AddNode` | blockchain/blockindex.go:313-327 | the index gains exactly this node, which becomes dirty, and the tree stays rooted at genesis with every node matching its header hash |
| `Chain.BlockChain.SetStatusFlags` | blockchain/blockindex.go:352-357 | bits are only ever turned on, the node becomes dirty, and the main chain stays free of known invalid blocks |
| `Chain.BlockChain.FlushToDB` | blockchain/blockindex.go:376-400 | all dirty nodes or none: afterwards nothing is dirty and the committed state can be loaded, or nothing changed |
| `Chain.BlockChain.SaveDirty` | blockchain/blockindex.go:384-392 | in whatever order the dirty nodes are written, every indexed node ends up saved with its present status |
| `Chain.BlockChain.constructor` | blockchain/chainio.go:1061-1163 | the first state holds genesis alone, in memory and in the database, and can be loaded |
| `BlockIndex.ConsistentLoadable` | blockchain/chainio.go:1205-1323 | whenever index, rows, stored blocks and main chain agree, the database can be loaded |
| `BlockIndex.AllSaved` | blockchain/blockindex.go:376-400 | once every node is saved no row lacks its parent's row, and every main-chain row is stored as valid and not as invalid |
| `BlockIndex.WriteOne` | blockchain/chainio.go:1429-1456 | writing one node saves that node and spoils no other row: keys of different nodes differ |
| `BlockIndex.AddKeeps` | blockchain/blockindex.go:313-327 | indexing a new node keeps index, rows, dirty set and main chain in agreement |
| `BlockIndex.StatusKeeps` | blockchain/blockindex.go:352-357 | a status change keeps the agreement unless it would spoil the main chain |
| `BlockIndex.ConnectKeeps` | blockchain/chain.go:707-720 | a validated child of the tip extends both buckets, the record and the transaction total consistently |
| `BlockIndex.DisconnectKeeps` | blockchain/chain.go:832-844 | taking the tip off restores buckets, record and total for its parent |
| `BlockIndex.StoreKeeps` | blockchain/chainio.go:1461-1470 | storing a block keeps the agreement |
| `BlockIndex.SavedNear` | blockchain/blockindex.go:376-400 | once every node is saved, the rows are as near to the stored main chain as the nodes are to the best chain: a validated one has its parent there |
| `BlockIndex.LoadedNear` | blockchain/chainio.go:1205-1323 | and the nodes read from such rows are as near to the best chain again |
| `Store.KeyOrder` | blockchain/chainio.go:1476-1481 | keys sort by height first, whatever the hashes |
| `Store.KeyInjective` | blockchain/chainio.go:1476-1481 | a key determines height and hash |
| `Store.ConnectedLists` | blockchain/chainio.go:863-878 | adding the next block to both buckets keeps them mutual inverses that list exactly the longer chain, with record and total to match |
| `Store.DisconnectedLists` | blockchain/chainio.go:883-896 | removing the last block leaves mutual inverses that list exactly the shorter chain, with record and total to match |
| `Chain.BlockChain.GetReorganizeNodes` | blockchain/chain.go:585-631 | with no invalid block on the way, the chain without the detached nodes plus the attached ones is the path to the node; otherwise both lists are empty, exactly the nodes above the last invalid one are marked, and nothing else changes; for a node of the main chain nothing is attached and all above it is detached, so that both lists are empty exactly for an invalid branch and for the tip |
| `Chain.EmptyLists` | blockchain/chain.go:573-631 | the node is on the main chain exactly when it is its own fork point, and both walks are empty exactly when it is the tip |
| `Chain.BlockChain.CollectNodes` | blockchain/chain.go:602-630 | from the fork point on: the lists and their lengths, or the last invalid node and the marks above it |
| `Chain.BlockChain.MakeTip` | blockchain/chain.go:585-1180 | finding the lists and applying them: no tip assertion fails; with no invalid block on the way and all steps passing the chain ends in the node, and with one nothing is connected |
| `Chain.BlockChain.FindFork` | blockchain/chain.go:601-601 | the fork point exists and is the last common node of the two paths |
| `Chain.BlockChain.WalkAttach` | blockchain/chain.go:602-609 | the nodes above the fork, or above the last invalid node, in forward order |
| `Chain.BlockChain.WalkDetach` | blockchain/chain.go:626-628 | the nodes from the tip down to the fork |
| `Chain.BlockChain.MarkInvalid` | blockchain/chain.go:615-621 | the given nodes are marked and no other status changes |
| `Chain.BlockChain.ReorganizeChain` | blockchain/chain.go:933-1180 | for every outcome of every load, check, view update, flush and commit: lists that fit the chain pass every tip and fork-point assertion; if all steps succeed the chain ends in the last attached node; after a failure at any step the invariant holds and the tip is on the old path down to the fork or one of the attached nodes; the snapshot describes the new tip exactly when that tip has no votes |
| `Chain.BlockChain.Aligned` | blockchain/chain.go:939-960 | lists that fit the chain pass both list assertions |
| `Chain.BlockChain.CheckAttach` | blockchain/chain.go:1047-1102 | if the checks pass all nodes to attach are valid; if one breaks a rule it is marked failed and all after it as having an invalid ancestor; the chain is untouched either way |
| `Chain.BlockChain.DetachAll` | blockchain/chain.go:1113-1137 | each disconnect finds its node at the tip, down to the fork point, and all succeed if every load, view update, fetch, flush and commit does; after a failure the tip is between the old one and the fork |
| `Chain.BlockChain.AttachAll` | blockchain/chain.go:1140-1166 | each connect finds its parent at the tip, up to the last node, and all succeed if every step does; after a failure the tip is the fork or one of the attached nodes |
| `Chain.OffMain` | blockchain/chain.go:601-609 | above the fork the two paths share no node |
| `Restart.InitChainState` | blockchain/chainio.go:1169-1344 | on an empty or any loadable database the start succeeds, leaves nothing dirty, rebuilds exactly the saved tree and reaches a state that satisfies the whole invariant with a snapshot that describes the tip; if every validated row has its parent on the stored main chain, so has every validated node on the best chain |
| `Restart.Recover` | blockchain/chainio.go:1169-1344 | a run stopped after any one of its transactions can be taken up again from what that transaction committed, and validated blocks still have their parents on the best chain if they had |
| `Restart.LoadChain` | blockchain/chainio.go:1205-1323 | on a loadable database no genesis, parent, tip or block lookup fails and no ancestor of the tip has to be upgraded |
| `Restart.LoadIndex` | blockchain/chainio.go:1237-1284 | if the rows form a tree, the cursor's order lets every parent be found and the index holds exactly the nodes of the rows |
| `Restart.ParentBuilt` | blockchain/chainio.go:1252-1271 | on a tree of rows neither parent error can occur: in the cursor's order the first row is that of genesis, and for every other row the named parent is already built, one height below |
| `Restart.MarkValid` | blockchain/chainio.go:1311-1323 | the tip and all its ancestors end up valid; exactly those that were not become dirty |
| `Restart.ParentFirst` | blockchain/chainio.go:1252-1271 | the row of a parent sorts before the rows of its children |
| `Restart.GenesisFirst` | blockchain/chainio.go:1253-1259 | the first row, and no other, is that of genesis |
| `Restart.BuildOne` | blockchain/chainio.go:1277-1283 | a row adds exactly its own node and displaces none |
| `Restart.MainPath` | blockchain/chainio.go:1288-1293 | the stored main chain is the path to the node with its last hash, and all its nodes are stored as valid |
| `Restart.LoadedConsistent` | blockchain/chainio.go:1205-1323 | what is loaded agrees with the database in every respect |
| `Restart.ComesBack` | blockchain/chainio.go:1237-1284 | a node comes back exactly when it had been saved, with its header, height and votes, and with its status unless that was waiting to be written |
| `BestState.Serialize` | blockchain/chainio.go:966-991 | the buffer filled field by field is the 147-byte form |
| `BestState.DecodeEncode` | blockchain/chainio.go:966-1036 | every field comes back, whatever follows, but the last byte of the public key becomes zero |
| `BestState.SurvivesIff` | blockchain/chainio.go:966-1036 | a record survives exactly when that byte is zero |
| `BestState.LosesLastByte` | blockchain/chainio.go:988-988 | a record that does not survive |
| `BestState.EncodeDecode` | blockchain/chainio.go:966-1036 | bytes that were read are written back as they were, but for the last one, and unchanged exactly when that one is zero |
| `ChainView.ChainView.SetTip` | blockchain/chainview.go:118-150 | from any earlier view, longer, shorter or on another branch, the early stop leaves exactly the path to the new tip |
| `ChainView.ChainView.Resize` | blockchain/chainview.go:133-144 | the slice has the new length, keeps what it held and is empty beyond it |
| `ChainView.ContainsIffAncestor` | blockchain/chainview.go:195-236 | membership means being the tip or one of its ancestors, and a height names the ancestor of the tip there, or nothing outside the chain |
| `ChainView.ChainView.NodeByHeight` | blockchain/chainview.go:195-201 | the node of the path at that height, none outside it |
| `ChainView.ChainView.FindFork` | blockchain/chainview.go:299-329 | the last node two branches share, none exactly when they share no genesis |
| `ChainView.ChainView.BlockLocator` | blockchain/chainview.go:363-420 | the entries are the ancestors at the locator heights, as many as computed in advance, down to genesis |
| `ChainView.MaxEntries` | blockchain/chainview.go:375-383 | the computed number of entries is the length of the locator |
| `Locator.FastLog2Floor` | blockchain/chainview.go:18-33 | the five masked steps compute the floor of the binary logarithm of every 32-bit number |
| `Locator.MaskTest` | blockchain/chainview.go:18-33 | each mask tells whether the number has more than that many bits |
| `Locator.HeightsDecrease` | blockchain/chainview.go:363-420 | locator heights strictly decrease: h - k up to entry 11, then h - 9 - 2^(k - 10), never below zero |
| `Locator.LengthFormula` | blockchain/chainview.go:375-383 | the length is h + 1 up to height 12 and 12 plus the floor of the logarithm of h - 10 above |
| `Locator.NextHeight` | blockchain/chainview.go:397-416 | the doubling step of the loop produces the closed form of the next height |
| `Locator.LengthUnique` | blockchain/chainview.go:375-383 | a height has one locator length |
| `ChainTree.AncestorAt` | blockchain/blockindex.go:181-192 | the node of the path at that height, none outside it |
| `ChainTree.PathOfPath` | blockchain/blockindex.go:181-192 | every prefix of a path is the path of its last node |
| `ChainQuery.LocateInventory` | blockchain/chain.go:1634-1679 | the run starts after the first locator entry on the main chain and goes up to the stop block if that is listed from there on, up to the tip otherwise, and no further than the limit; no locator asks for one block; no nil node is followed |
| `ChainQuery.LocateBlocks` | blockchain/chain.go:1692-1708 | the hashes are that contiguous stretch of the main chain; its last one is the stop hash if that is ahead and within the limit, and it ends at the tip or at the limit otherwise |
| `ChainQuery.FirstKnownIs` | blockchain/chain.go:1647-1657 | the start is the first locator entry that the main chain lists, and genesis if it lists none |
| `ChainQuery.RunLength` | blockchain/chain.go:1667-1676 | the number of entries from the height of the stop block, the tip and the limit |
| `ChainQuery.AnswerPeer` | blockchain/chain.go:1634-1708 | for a peer d blocks past its fork the run starts at or before its first missing block, repeats nothing if d is at most 11 and fewer than d - 9 blocks otherwise |
| `ChainQuery.BuiltLocator` | blockchain/chainview.go:363-420 | what is built as the locator of a node is the locator of that node's branch |
| `ChainQuery.ServePeer` | blockchain/chain.go:1634-1708 | the same for a peer that builds its locator from its own view and one of its nodes |
| `ChainQuery.PeerStart` | blockchain/chain.go:1634-1679 | the first matching locator entry is the fork block or close below it |
| `ChainQuery.StopsNearFork` | blockchain/chainview.go:397-416 | how far below the fork a doubling locator can stop |
| `ChainQuery.SharedIffOnBranch` | blockchain/chain.go:1651-1657 | a block of the peer is on the main chain exactly when it is shared |
| `ChainQuery.HeightToHashRange` | blockchain/chain.go:1541-1575 | succeeds exactly under the stated bounds and then gives all ancestors from the start height on, the end block included |
| `ChainQuery.IntervalBlockHashes` | blockchain/chain.go:1582-1615 | succeeds exactly for known valid blocks and gives the ancestors at the positive multiples of the interval, whether or not the walk meets the main chain |
| `ChainQuery.IntervalAt` | blockchain/chain.go:1596-1612 | entry i is the ancestor at height (i + 1) times the interval |
| `CfCheckpoint.Checkpoints.OnGetCFCheckpt` | server.go:1053-1201 | for a current request for a valid block: answered exactly when all headers past the match are present, with which answer, cache and capacity; with a sound cache the answer equals the uncached lookup, and the cache is sound afterwards exactly unless an append in place was cut short between the match and the old length; any other request changes nothing |
| `CfCheckpoint.Checkpoints.Answer` | server.go:1094-1200 | with the cache as an array and a length: when there is an answer, what it consists of, and what the live cache holds afterwards, on failures too |
| `CfCheckpoint.Checkpoints.Grow` | server.go:1111-1122 | appended in place when the capacity suffices, and in a new array otherwise; the live cache reads the same |
| `CfCheckpoint.Checkpoints.Fetch` | server.go:1153-1200 | headers are added up to the first missing one; entries written before it remain when the array is shared |
| `CfCheckpoint.SplicedIsUncached` | server.go:1094-1200 | with a sound cache the cached part and the fetched part together are the uncached answer |
| `CfCheckpoint.OverlaidSoundIff` | server.go:1170-1193 | entries of another branch written over part of a sound cache leave it sound exactly when there are none or they reach its end |
| `CfCheckpoint.AnswerIsRight` | server.go:1053-1201 | for a sound cache: the answer is the uncached one, and the cache stays sound exactly when the request is not cut short in place |
| `CfCheckpoint.SpoiledAnswer` | server.go:1138-1150 | asked for the old branch again, a spoiled cache gives the right answer exactly when the overwritten headers happen to agree |
| `CfCheckpoint.SpoiledExample` | server.go:1111-1193 | two indexed branches that share two of four cached entries, room for a fifth, and a request that lacks its fourth header: the cache then mixes both branches and the answer for the old branch is not the uncached one |
| `CfCheckpoint.Checkpoints.SpoiledRun` | server.go:1053-1201 | three requests for two such validated branches from an empty cache, the last of which gets a wrong answer |
| `CfCheckpoint.Checkpoints.Serve` | server.go:1053-1201 | over every run of requests on growing indexes from an empty cache: as long as no request spoils the cache, every answer is the uncached one and the cache is that of one branch; the first that does is the first after which it is not; requests that lack no header never do |
| `CfCheckpoint.CompleteNeverSpoils` | server.go:1170-1193 | a request that lacks no header spoils no cache |
| `CfCheckpoint.NearNeverSpoils` | server.go:1094-1200 | between branches whose ends have their parents on the best chain no request spoils the cache, whichever headers are missing and whatever the capacity |
| `Session.Run` | server.go:1053-1201 | over every run of accepted blocks and getcfcheckpt requests from an empty cache, with any headers missing: every answer is the uncached one, the cache is that of one branch, and requests that lack nothing are answered |
| `Session.SettledAnswer` | server.go:1094-1200 | one request for a block near the best chain: the right answer, and a cache of a branch near the best chain again |
| `Session.NearGrows` | blockchain/chain.go:1197-1315 | blocks near the best chain stay near it as it grows |
| `CfCheckpoint.Checkpoints.ForkIndex` | server.go:1138-1143 | the longest match, searched from the end |
| `CfCheckpoint.MatchIsPrefix` | server.go:1138-1143 | one matching entry makes all earlier entries match |
| `CfCheckpoint.CachedPart` | server.go:1148-1150 | everything below the match is right for the requested branch |
| `CfCheckpoint.GrowthKeepsCache` | server.go:1053-1201 | a growing block index does not disturb the cache |
| `AddrBook.RunKeepsInv` | addrmgr/addrmanager.go:165-237 | every state of every run of announcements and successes from a fresh manager satisfies the bucket invariant |
| `AddrBook.TriedXorNew` | addrmgr/addrmanager.go:165-277 | an address is tried, once in one list and in no bucket, or new, in one to eight buckets; the reference count is the number of its buckets |
| `AddrBook.CountersAgree` | addrmgr/addrmanager.go:618-620 | the two counters split the index, and each non-zero one has a non-empty bucket behind it |
| `AddrBuckets.OverfullAfterAdd` | addrmgr/addrmanager.go:218-236 | exactly when a new bucket holds 65 addresses after an announcement: it was entered while at its nominal size or while overfull without a bad address, or it was overfull and not entered |
| `AddrBuckets.OverfullAfterEviction` | addrmgr/addrmanager.go:914-942 | exactly when a new bucket holds 65 addresses after an exchange: it did before, and the promoted address was not in it or the evicted one took its place |
| `AddrBuckets.OverfullAfterGood` | addrmgr/addrmanager.go:859-943 | a success never makes a bucket overfull |
| `AddrBuckets.OverfullOnlyFromFull` | addrmgr/addrmanager.go:165-237 | whatever the step, a bucket holds 65 addresses afterwards only if it held 64 or 65 before |
| `AddrBuckets.ReachesOverfull` | addrmgr/addrmanager.go:218-236 | a run from a fresh manager at whose end a bucket does hold 65 addresses |
| `AddrBook.AddStepKeepsInv` | addrmgr/addrmanager.go:165-237 | an announcement keeps the invariant, expiry included |
| `AddrBook.GoodStepKeepsInv` | addrmgr/addrmanager.go:859-943 | a success keeps the invariant, promotion and exchange included |
| `AddrBook.EvictedKeepsInv` | addrmgr/addrmanager.go:914-942 | exchanging the oldest tried address for the new one keeps the invariant, wherever the evicted one lands |
| `AddrBook.ExpiryMakesRoom` | addrmgr/addrmanager.go:241-277 | expiry of a full bucket removes at least one address, never the one being added, and keeps the invariant |
| `AddrBook.DropKeepsInv` | addrmgr/addrmanager.go:241-277 | dropping addresses from a bucket, and forgetting those held nowhere else, keeps the invariant |
| `AddrBook.PlaceKeepsInv` | addrmgr/addrmanager.go:232-233 | entering a bucket keeps the invariant |
| `AddrBook.PromoteKeepsInv` | addrmgr/addrmanager.go:884-911 | leaving all new buckets for a tried list keeps the invariant |
| `AddrBook.ExchangeKeepsInv` | addrmgr/addrmanager.go:914-942 | swapping a tried address for a promoted one keeps the invariant |
| `AddrBook.ResetIff` | addrmgr/addrmanager.go:675-687 | a reset, which forgets the counters, keeps the invariant exactly when the index was empty |
| `AddrManager.AddrManager.constructor` | addrmgr/addrmanager.go:1109-1119 | a new manager is valid and empty |
| `AddrManager.AddrManager.UpdateAddress` | addrmgr/addrmanager.go:165-237 | in place, the announcement step: a known address has its services joined and takes the announced time if that is later or a service is new, a new one is indexed as announced; unroutable addresses change nothing |
| `AddrManager.AddrManager.See` | addrmgr/addrmanager.go:172-216 | a known address is refreshed, an unknown one is indexed and counted, and the manager mirrors its book |
| `AddrEffects.AnnouncedKnown` | addrmgr/addrmanager.go:172-203 | after an announcement of a known address its services are the union; its time is the announced one if that was later or a service was new, and the old one otherwise; source, attempts and the other times stay, and no other entry changes but for its count |
| `AddrEffects.AnnouncedNew` | addrmgr/addrmanager.go:204-216 | a first announcement makes an entry with no history that is in one bucket |
| `AddrEffects.AnnouncedPlaces` | addrmgr/addrmanager.go:192-236 | an announced address enters the one bucket that its key and source hash to, unless it is tried, in eight buckets or held back by the coin; other buckets and the tried lists stay |
| `AddrEffects.Expelled` | addrmgr/addrmanager.go:241-277 | nobody leaves a bucket of up to 64; from a larger one all bad addresses go, and at most one other, which is no newer than any that stays |
| `AddrEffects.Succeeded` | addrmgr/addrmanager.go:859-911 | after a success the address is tried, has no failed attempts and carries the time as last attempt and last success; everything else of it and of all others stays but counts and the flag of one evicted address |
| `AddrEffects.SucceededJoins` | addrmgr/addrmanager.go:884-911 | it leaves every new bucket for the end of its tried list |
| `AddrEffects.SucceededReplaces` | addrmgr/addrmanager.go:914-942 | in a full list it takes the place of the first of the oldest, which goes to its own bucket or, if 64 others are there, to the first bucket just left |
| `AddrEffects.WhenBad` | addrmgr/knownaddress.go:70-97 | never bad within a minute of an attempt; then bad by a time stamp ten minutes ahead or thirty days back; else exactly by three failures without a success, or ten with the last success a week ago |
| `AddrManager.AddrManager.Spread` | addrmgr/addrmanager.go:218-236 | entering a bucket, with an expiry first if it is over its size |
| `AddrManager.AddrManager.ExpireNew` | addrmgr/addrmanager.go:241-277 | all bad addresses of the bucket go and, if there are others, an oldest one of these; those held nowhere else leave the index and the counter |
| `AddrManager.AddrManager.ExpireOldest` | addrmgr/addrmanager.go:266-276 | an oldest address that is not bad goes too, if there is one |
| `AddrManager.AddrManager.PickTried` | addrmgr/addrmanager.go:282-294 | the first of the oldest entries of a list, none for an empty one |
| `AddrManager.AddrManager.Good` | addrmgr/addrmanager.go:859-943 | in place, the success step: times, attempts, all new buckets left, the tried list joined or its oldest entry exchanged and sent back to a bucket |
| `AddrManager.AddrManager.MoveToTried` | addrmgr/addrmanager.go:876-943 | the part of it for an untried address |
| `AddrManager.AddrManager.WithdrawAll` | addrmgr/addrmanager.go:885-896 | the address leaves every new bucket, and the first of them is remembered |
| `AddrManager.AddrManager.Evict` | addrmgr/addrmanager.go:914-942 | the evicted address goes to its own bucket, or to the one just vacated when that is full |
| `AddrManager.AddrManager.GetAddress` | addrmgr/addrmanager.go:745-810 | the address that the first accepted draw names; none exactly when no draw is accepted; tried or new by the coin if there are both, and whichever there are otherwise |
| `AddrManager.AddrManager.SomethingToDraw` | addrmgr/addrmanager.go:745-810 | whenever an address is known, some draw names one, for either outcome of the coin |
| `AddrChance.DrawingEnds` | addrmgr/addrmanager.go:745-810 | drawing ends: once more than 26 + 3 a draws name an address, a being the most failed attempts of any, one of them has been accepted, whatever the random numbers |
| `AddrChance.AcceptedAfter` | addrmgr/addrmanager.go:772-780 | after 26 + 3 a rejections an address with a failed attempts is accepted for certain |
| `AddrChance.DecayedBack` | addrmgr/knownaddress.go:54-57 | the chance times 1.5 to the number of failed attempts is the chance without them |
| `AddrChance.AcceptsIff` | addrmgr/addrmanager.go:774-774 | accepted exactly when the random number times 1.5 to the failed attempts is below the factor times 2^30, or a hundredth of that if the address was attempted in the last ten minutes |
| `AddrChance.FirstChances` | addrmgr/knownaddress.go:38-60 | at first an address without failures is always taken if not just attempted, and by the 10737419 lowest numbers if so |
| `AddrChance.FirstHitMeans` | addrmgr/addrmanager.go:755-808 | all addresses named before the deciding draw were rejected and the one it names is accepted, with the factor raised by a fifth after each rejection |
| `AddrChance.EveryDrawable` | addrmgr/addrmanager.go:760-799 | every known address is named by some draw from its table |
| `AddrManager.AddrManager.NumAddresses` | addrmgr/addrmanager.go:618-620 | the sum of the counters is the size of the index |
| `AddrManager.AddrManager.Reset` | addrmgr/addrmanager.go:675-687 | buckets and index are emptied; the manager stays valid exactly when it was empty |
| `AddrBook.StampedIsBadIff` | addrmgr/knownaddress.go:70-97 | an address that was just connected to is bad exactly when a minute has passed and its time stamp lies in the future or more than a month back; attempts and failures no longer count against it |
| `AddrManager.AddrManager.SavePeers` | addrmgr/addrmanager.go:360-401 | the file lists every address once, every new bucket's keys once and every tried list in order |
| `AddrFile.FileHolds` | addrmgr/addrmanager.go:360-401 | the record of every address holds its source, time stamp, attempts and times, and there is no other record |
| `AddrManager.LoadPeers` | addrmgr/addrmanager.go:437-523 | a file written from a consistent manager is accepted and gives that manager back up to time stamps and services; anything accepted passes the final check |
| `AddrManager.Restart` | addrmgr/addrmanager.go:360-523 | saving and loading any consistent manager gives a consistent manager with the same buckets, list order, reference counts, flags and counters |
| `AddrManager.AddrManager.LoadAddresses` | addrmgr/addrmanager.go:462-478 | the entries of the file, before any bucket is read |
| `AddrManager.AddrManager.LoadNew` | addrmgr/addrmanager.go:480-494 | reading the new buckets derives reference counts and the new counter |
| `AddrManager.AddrManager.LoadTried` | addrmgr/addrmanager.go:495-507 | reading the tried lists derives flags, order and the tried counter |
| `AddrManager.AddrManager.Sane` | addrmgr/addrmanager.go:510-520 | the final check accepts exactly the books in which every address is new or tried and not both |
| `AddrFile.DerivedIsSame` | addrmgr/addrmanager.go:462-507 | what is derived from bucket contents is what was saved |
| `AddrFile.DeriveNew` | addrmgr/addrmanager.go:480-494 | reading one bucket entry is one step of the derivation |
| `AddrFile.DeriveTried` | addrmgr/addrmanager.go:495-507 | reading one tried entry is one step of the derivation |
| `AddrFile.LoadedIsSane` | addrmgr/addrmanager.go:510-520 | a manager restored from a consistent one passes the final check |
| `Vlq.Bijection` | blockchain/compress.go:53-108 | encoding and decoding are inverse between the 64-bit numbers and the complete byte strings whose value fits |
| `Vlq.DecodeWraps` | blockchain/compress.go:95-108 | any complete byte string is read to its end and no further, and gives its value modulo 2^64 |
| `Vlq.RoundTrip` | blockchain/compress.go:68-108 | a number decodes back with its exact size, whatever follows |
| `Vlq.PrefixFree` | blockchain/compress.go:68-108 | no encoding is a proper prefix of another |
| `Vlq.EncodeOfValue` | blockchain/compress.go:68-108 | a complete byte string re-encodes to itself |
| `Vlq.SerializeSize` | blockchain/compress.go:53-60 | the size computed in advance is the length of the encoding |
| `Vlq.Put` | blockchain/compress.go:68-90 | written backwards and reversed in place, the target holds the encoding and is untouched elsewhere |
| `Vlq.Deserialize` | blockchain/compress.go:95-108 | the loop decodes, with the wrap-around of 64-bit arithmetic |
| `UtxoKey.OutpointKeyInjective` | blockchain/chainio.go:617-627 | different outpoints have different keys |
| `UtxoKey.MakeKey` | blockchain/chainio.go:617-627 | the buffer holds hash and encoded index |
| `UtxoKey.SeekFindsHash` | blockchain/chainio.go:727-752 | a cursor placed at index 0 of a hash meets a key of that hash first if there is one |
| `UtxoKey.KeyOrderIff` | blockchain/chainio.go:617-627 | exactly when keys of one transaction sort like their indexes |
| `UtxoKey.KeyOrderFails` | blockchain/chainio.go:617-627 | two adjacent indexes, and the smallest two, whose keys sort the other way round |
| `UtxoKey.KeyOrderHolds` | blockchain/chainio.go:617-627 | all pairs below these sort like their indexes |
| `Amount.DecompressCompress` | blockchain/compress.go:472-537 | decompression undoes compression for every amount |
| `Amount.CompressDecompress` | blockchain/compress.go:472-537 | compression undoes decompression for every code |
| `Amount.CompressBound` | blockchain/compress.go:472-497 | a code is at most nine times its amount |
| `Amount.CompressTxOutAmount` | blockchain/compress.go:472-497 | the 64-bit loop computes the code modulo 2^64 |
| `Amount.DecompressTxOutAmount` | blockchain/compress.go:502-537 | the 64-bit loop computes the amount modulo 2^64 |
| `Amount.MachineRoundTrip` | blockchain/compress.go:472-537 | a 64-bit amount comes back from the 64-bit loops if and only if it is a multiple of ten or 9 a + a mod 10 - 9 is below 2^64 |
| `Amount.CodeFits` | blockchain/compress.go:472-497 | that condition says exactly that the code of the amount is below 2^64 |
| `Amount.OverflowLoses` | blockchain/compress.go:472-537 | every amount whose code overflows is lost: no wrapped code stands for its amount by chance |
| `Amount.NinthFits` | blockchain/compress.go:472-537 | no step overflows on an amount whose ninefold is below 2^64 |
| `Amount.MachineRoundTripBack` | blockchain/compress.go:472-537 | and so for every code whose amount fits |
| `Amount.FirstLost` | blockchain/compress.go:472-537 | the smallest amount that is lost, 2049638230412172403, and a larger one that is not |
| `Script.RoundTripScript` | blockchain/compress.go:180-429 | every script comes back from its compressed form, whatever bytes follow |
| `Script.CodeTellsForm` | blockchain/compress.go:250-345 | type codes 0 to 5 mark exactly the recognised forms |
| `Script.HeadCode` | blockchain/compress.go:278-299 | the first number of a compressed script is that code, and general scripts start at 6 |
| `Script.SizeIsExact` | blockchain/compress.go:278-299 | the size read back from the data is the size written |
| `Script.CompressedSize` | blockchain/compress.go:250-271 | the size computed in advance is the size written |
| `Script.PutCompressed` | blockchain/compress.go:306-345 | the target holds the compressed script and is untouched elsewhere |
| `TxOut.RoundTripTxOut` | blockchain/compress.go:556-598 | for every 64-bit amount and every script, whatever follows: script and byte count come back, and the amount exactly when its code fits |
| `TxOut.PutCompressed` | blockchain/compress.go:567-571 | the target holds the compressed output and is untouched elsewhere |
| `TxOut.CompressedSize` | blockchain/compress.go:556-559 | the size computed in advance is the size written |
| `Journal.RoundTripAll` | blockchain/chainio.go:396-468 | a list of spent outputs comes back from its entry in spend order |
| `Journal.RoundTripOne` | blockchain/chainio.go:328-387 | one spent output comes back with its size, whatever follows |
| `Journal.HeaderRoundTrip` | blockchain/chainio.go:296-306 | height and coinbase flag come back from the header code |
| `Journal.Serialize` | blockchain/chainio.go:448-468 | the entry, written backwards into a buffer of the computed size |
| `Journal.Deserialize` | blockchain/chainio.go:396-443 | reads the entry against the block's inputs, with the two errors of the source kept apart: an empty entry for a block with inputs, and a corrupt one |
| `Journal.Rewrite` | blockchain/chainio.go:396-468 | writing and reading back any list with as many elements as the block has inputs gives that list |
| `Journal.PutOne` | blockchain/chainio.go:328-339 | the target holds one spent output of the computed size |
| `Journal.SizeOne` | blockchain/chainio.go:312-321 | the size computed in advance is the size written |
| `Journal.RoundTripUtxo` | blockchain/chainio.go:639-719 | an unspent output comes back from its entry |
| `Formats.VlqVectors` | blockchain/compress.go:30-42 | the listed encodings |
| `Formats.VlqLengths` | blockchain/compress.go:22-25 | one byte up to 127, two up to 16511, three up to 2113663 |
| `Formats.AmountCodes` | blockchain/compress.go:445-456 | the code of an amount from its last digit, what stands before it and the number of zeros |
| `Formats.Scales` | blockchain/compress.go:445-456 | the scaling of amounts is by powers of ten |
| `Formats.HalfCoin` | blockchain/compress.go:457-466 | half a coin has code 48 |
| `Formats.ScriptForms` | blockchain/compress.go:180-243 | the bytes of the recognised script forms, and that nothing else is recognised |
| `Formats.ScriptCodes` | blockchain/compress.go:306-345 | the code and payload that each form is compressed to |
| `Formats.ScriptDecodes` | blockchain/compress.go:352-429 | the script that each code and payload is decompressed to, whether or not it came from a script, and the nil script for a point that does not exist |
| `Formats.TxOutParts` | blockchain/compress.go:567-571 | an output is the number for its amount, then its script |
| `Formats.JournalParts` | blockchain/chainio.go:328-339 | a spent output is the number for height and coinbase flag, a zero byte unless the height is zero, and the output |
| `Formats.JournalOrder` | blockchain/chainio.go:448-468 | the outputs of a block are written last one first |
| `Formats.UtxoParts` | blockchain/chainio.go:639-670 | an unspent output has the same start and no zero byte |
| `Formats.LowByteFirst` | blockchain/chainio.go:966-991 | numbers of fixed width are written low byte first |
| `Formats.BestStateLayout` | blockchain/chainio.go:966-991 | the position of every field of the record |
| `Formats.RowKeyLayout` | blockchain/chainio.go:1476-1481 | four bytes of height, high byte first, then the hash |
| `Subscriptions.Manager.Handle` | rpcwebsocket.go:482-606 | an outpoint request ends only by its client or by a block that spends the output, and starts only by its client or by a payment to a watched address; address requests and the three sets of clients change only by the client's own messages, and exactly as asked; both copies of all requests agree, nothing is watched by nobody, and an unregistered client is mentioned nowhere |
| `Subscriptions.Manager.HandleAll` | rpcwebsocket.go:482-606 | over every run of messages a request for an outpoint lasts until its client withdraws it or leaves or a block spends the output; a transaction that is only accepted does not end it |
| `Subscriptions.TxEffect` | rpcwebsocket.go:1065-1113 | who watches an outpoint after a transaction: those before unless a block spends it, and those whose watched address it pays |
| `Subscriptions.BlockEffect` | rpcwebsocket.go:507-517 | a block ends requests only for outpoints it spends and starts them only for outputs that pay a watched address |
| `Subscriptions.Manager.BlockConnected` | rpcwebsocket.go:507-517 | the watchers of every outpoint after a block, in terms of its transactions in order |
| `Subscriptions.Manager.NotifyForTx` | rpcwebsocket.go:1065-1074 | the watchers of every outpoint after one transaction |
| `Subscriptions.Manager.NotifyForTxIns` | rpcwebsocket.go:1080-1113 | exactly the watchers of spent outputs are notified, and in a block their requests end |
| `Subscriptions.Manager.NotifyForTxOuts` | rpcwebsocket.go:991-1037 | whoever watches a paid address starts watching the output |
| `Subscriptions.Manager.AddSpentRequests` | rpcwebsocket.go:886-919 | the client watches the new outpoints and both copies agree |
| `Subscriptions.Manager.RemoveSpentRequest` | rpcwebsocket.go:935-955 | one request ends in both copies, and an entry without watchers goes |
| `Subscriptions.Manager.AddAddrRequests` | rpcwebsocket.go:1127-1144 | the client watches the new addresses and both copies agree |
| `Subscriptions.Manager.RemoveAddrRequest` | rpcwebsocket.go:1158-1178 | one request ends in both copies, and an entry without watchers goes |
| `Subscriptions.Manager.UnregisterClient` | rpcwebsocket.go:555-568 | every trace of the client goes, and nothing else |
| `Subscriptions.WatchedUntilSpent` | rpcwebsocket.go:991-1113 | an output created in a block stays watched by those it pays unless a later transaction of the block spends it |
| `Subscriptions.UnwatchedOnceSpent` | rpcwebsocket.go:1080-1113 | an output spent in a block and not created after that is watched by nobody |
| `Subscriptions.MirrorWatch` | rpcwebsocket.go:886-919 | adding a watcher to both copies keeps them in agreement |
| `Subscriptions.MirrorUnwatch` | rpcwebsocket.go:935-955 | removing one from both copies keeps them in agreement |
| `Difficulty.BigToCompact` | blockchain/difficulty.go:96-132 | the compact form of every integer, with the exponent cut to its low byte and, for a negative one, the shift that rounds away from zero |
| `Difficulty.RoundsDown` | blockchain/difficulty.go:63-132 | exact below 2^23; the result is the number rounded down by less than one part in 2^15 exactly when the number is below the limit |
| `Difficulty.NegativeRounds` | blockchain/difficulty.go:63-132 | the form of a negative number stands for one near it exactly when rounding does not carry out of the mantissa and the exponent fits; magnitudes below 2^23 are exact |
| `Difficulty.NegativeCarries` | blockchain/difficulty.go:96-132 | after a carry the form stands for zero |
| `Difficulty.CarriesIff` | blockchain/difficulty.go:96-132 | rounding carries exactly when the number has more than three bytes, its top three are all ones and more follows |
| `Difficulty.CarryExample` | blockchain/difficulty.go:96-132 | a number with a carry, -(2^40 - 1) |
| `Difficulty.ExponentFits` | blockchain/difficulty.go:96-132 | the exponent fits its byte exactly below 2^23 times 256^252 |
| `Difficulty.ToCompactMonotone` | blockchain/difficulty.go:96-132 | below the limit a larger number never has a smaller compact form |
| `Difficulty.Idempotent` | blockchain/difficulty.go:63-132 | below the limit rounding twice is rounding once |
| `Difficulty.CutExponent` | blockchain/difficulty.go:96-132 | above the limit the result is at least 256 times too small |
| `Difficulty.PartsNormal` | blockchain/difficulty.go:96-132 | mantissa and exponent are the normalised ones: sixteen to twenty-three bits, rounded down |
| `Formats.CompactMeans` | blockchain/difficulty.go:63-91 | what a compact form with a given exponent, sign and mantissa stands for |
| `Difficulty.WorkBounds` | blockchain/difficulty.go:145-157 | for a positive target t the work w is the one with (t + 1) w <= 2^256 < (t + 1)(w + 1), and zero otherwise |
| `Difficulty.WorkAntitone` | blockchain/difficulty.go:145-157 | a higher target never means more work |
| `MedianTime.CalcPastMedianTime` | blockchain/blockindex.go:209-248 | the window is the timestamps of the last eleven blocks of the path, or of all if there are fewer; twice as many as lie below the result are at most all, and twice as many as lie at or below it are more |
| `MedianTime.WindowIsPath` | blockchain/blockindex.go:209-231 | entry i of the window is the timestamp of the block i below the last one |
| `MedianTime.MedianUnique` | blockchain/blockindex.go:209-248 | only one number has that property |
| `MedianTime.MedianAdvances` | blockchain/validate.go:875-882 | a block later than its parent's median has a median no earlier than its parent's and no later than itself, while the window fills and once it slides |
| `MedianTime.MedianNeverDecreases` | blockchain/validate.go:875-882 | along every branch that obeys the timestamp rule the median never decreases, and every block is later than the median of every block before it |
| `MedianTime.Slide` | blockchain/blockindex.go:209-248 | how counts change when the window moves by one block |

## Left out

- GetAddress: the draws are a finite list, so that it may find none; chances are real numbers instead of floating point ones.
- LoadPeers: time stamps and services of addresses are not restored by the source, so equality is stated up to them; the version and the bucket counts of a file of another shape are not followed further.
- MaybeAcceptBlock: heights are assumed to leave room for a week of blocks below 2^31, and transaction totals are unbounded.
- Contents of the checks on a block: script execution, contextual and connect checks, proof of weight, voting and mining.
- The utxo set and the utxo view, the index manager and the optional indexes.
- The wire encoding of headers and blocks; a row of the block index is held decoded, and so is the best state record, whose bytes are the subject of `BestState`.
- The four-byte form of heights in the hash and height buckets.
- Migration of old databases, pruning of versions, the orphan pool and the duplicate check before a block is accepted.
- Mutexes, goroutines and channels: each locked section or handled message is one atomic step; a client stands for its quit channel.
- The sending of notifications, and the look into the memory pool when an outpoint request is added.
- Reads past the end of a slice within its capacity while decompressing malformed scripts.
- Random number generation; bucket hashing is an uninterpreted function.
- The failed-load path that resets a manager with stale counters, and hand-edited peers files with duplicate entries.
- RPC handlers, transport, configuration, logging and start-up code.
- The block pool helpers, checkpoints, retargeting and the reorganisation call that are commented out or never used.
