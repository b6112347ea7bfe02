# PIVX Bridge: a verified model

PIVX Bridge follows a PIVX node and keeps four things that must agree with it: an append-only log of Sapling blocks
(`shield.bin`), an in-memory mirror of that log, an index from block height to byte offset, and a scan cursor. The node's
chain can reorganise, calls can fail at any await, and clients read while the bridge writes. This project models that
core and the wire codec around it, and proves what the pieces guarantee together.

`dafny verify dfyconfig.toml` checks everything.

## How it is organised

| file | models |
|---|---|
| `Bytes`, `CompactSize`, `SaplingTx` | little-endian integers, CompactSize, the v3 transaction layout (spends and outputs as in sections 7.3 and 7.4 of the Zcash Protocol Specification) and its parser |
| `Stream`, `Scanner` | the three stream encoders over a growable byte vector; reading a reply's transactions from hex and the filter that makes shield blocks |
| `Packets`, `Transform`, `Cache` | walking length-prefixed packets; the stored-to-compact transformation; the cache file and its recovery |
| `CompactPacket`, `Client` | reference decoders for packets and whole replies, against which encoders and endpoints are measured |
| `Index`, `Serving` | the height index and the offset and length logic of the two endpoints |
| `Chain`, `RpcNode` | blocks known by hash, chains, shield blocks of a chain; the node as an object that may fail or switch chains |
| `BlockCache`, `ForkSearch`, `Bridge` | the block cache, the fork search on a fixed chain, and `index_new_blocks` with all its parts as one object |
| `Gate`, `GatePasses` | any number of indexing calls and readers interleaved at every await; what whole calls do, and how each can leave |
| `Samples`, `Scenarios` | concrete shield data, and runs of the bridge in which something goes wrong |
| `Hex` | the table, SSE2 and NEON hex decoders, lane by lane |

Code that mutates is modelled as methods on objects or loops over locals, each proved equal to a function of its inputs
or old state; what the bridge promises is then proved about those functions. Two ghost variables carry the history:
`Bridge.scanned`, the hash that was scanned at each height, and `Gate`'s `recorded`, the blocks that reached the file
before any failed write that is still in it.

The main results:

* **Convergence.** Take a call of the indexer against a fixed longer chain, from a state in step, in which any calls
  of detection and fork search may fail but those of the forward loop do not. It ends with file, buffer, index and
  cursor exactly as a fresh scan would leave them *if and only if* no block that the call keeps carries other shield
  data than the node's block of that height; and with the node's own hashes if and only if the chain was reachable
  (`Bridge.Bridge.IndexNewBlocks`). Reachable is a test on the state before the call: either nothing to undo and no
  stale block cached above the cursor, or answered detection calls, a cached cursor hash, a fork inside the 1000-block
  window (`ForkSearch.ForkSearchReaches999Blocks`), and above the fork no failing call and no cached height that agrees
  with the node again. Nothing is assumed about how the scanned hashes hang together. Successive longer chains that each
  part inside the window all converge (`Bridge.Bridge.Follow`); a reorganisation that was missed at the tip is missed
  for good (`ForkSearch.MissedForGood`, `Bridge.Bridge.StayMissed`).
* **Never skip.** Whatever fails, every shield block scanned up to the cursor is in the index (`Bridge.Bridge.Valid`, kept
  by every method), also under interleaving and over every run (`Gate.RunSkipsNone`).
* **In step.** Over each call, file, buffer and index stay in step if and only if no append failed and no failed cut
  shortened the file. `CacheFile` counts both events.
* **The gate.** However calls interleave, at most one is past the compare-exchange, its call goes as if no other were
  there, and from wherever it is it can give the gate back (`GatePasses.CallsAreSerial`, `GatePasses.CanLeave`). As long
  as every failed append or cut has been cut off again, index, buffer and file hold prefixes of one block list, the
  index at most one block behind, and no height is stored twice. After a failure all three still begin with the blocks
  recorded before it, until a reorganisation cuts into those (`Gate.IndexBufferFileArePrefixes`, `Gate.ReorgRepairs`);
  the retry stores the block a second time (`Gate.RetryStoresTwice`).
* **The codec.** Transforming the stored stream equals encoding directly, at every byte cut; a client's decoder recovers
  from each endpoint's reply exactly the recorded blocks asked for; the parser accepts exactly the serialised
  transactions.
* **Torn writes.** For every byte cut, recovery leaves whole blocks exactly when a whole block is there or the cut is
  empty.

## Where the code and its documentation differ

The model follows the code; in each case the exact condition is proved.

* `find_fork_point` is documented as correct beyond the search window because the rest is re-scanned. The orphans below
  the window stay: `ForkSearch.ForkSearchIsSafeExactlyWhen`, `Scenarios.ReorgBeyondWindowKeepsOrphans`.
* The comment on `find_fork_point` says a cold cache no longer loses a reorganisation. One that comes while the cursor's
  hash is not cached is lost, and so is one that comes between two heights of a pass, whose parents the loop does not
  compare, and one that comes after a failed append, whose block stays cached above the cursor. Each then stays for good:
  `ForkSearch.PassConvergesExactlyWhen`, `Scenarios.ReorgAfterRestart`, `Scenarios.ReorgDuringPass`,
  `Scenarios.ReorgAfterFailedAppend`.
* The comments in `find_fork_point` say that an RPC error in the walk costs at most redundant work. The walk then stops
  too high, and an error at or above the fork leaves orphans for good: `ForkSearch.WalkErrorKeepsOrphans`,
  `Scenarios.ReorgWithFailingWalk`. An error in the detection calls has the same effect, because the loop scans on:
  `ForkSearch.UndetectedReorgIsLost`, `Scenarios.ReorgWithFailingDetection`.
* The comments at the truncation say that a failed cut is bailed out of. The block cache has lost the cursor's hash by
  then, so no later call detects the reorganisation: `Bridge.Bridge.RollBack`, `Scenarios.ReorgWithFailingCut`.
* The repository's own README and the comment on `recover_cache` promise truncation to the last complete footer. Without
  any footer the file is left as it is: `Cache.RecoveryRemovesTornBlockExactlyWhen`, `Cache.FirstTornBlockStays`.
* When a cut of the file fails, `index_new_blocks` keeps buffer and index so as not to diverge from the disk. They diverge
  if and only if the failed call had already changed the file: `Bridge.Bridge.CutBack`.
* When a file append fails the buffer is extended all the same, and the retry extends both again, with an index offset that
  belongs to the file only: `Bridge.Bridge.AppendBlock`, `Gate.RetryStoresTwice`, `Gate.RetryReply`.
* The repository's README gives compact counts one byte and 724 bytes per output. The code writes CompactSize counts and
  756 bytes, because `cv` is sent too: `CompactPacket.PlusSaves112BytesPerOutput`, `CompactPacket.CompactPacketRoundTrip`.
* `hex_decode` is documented to decode invalid characters as 0x00. The vector builds do not: `Hex.MixedIsDecodedExactlyWhen`,
  `Hex.AtSignDiffers`.
* `insert` is documented to evict when full. Its loop ends only if fewer replies than the capacity are out of reach of
  eviction: `BlockCache.EvictionEndsExactlyWhen`, `BlockCache.FloodedCacheNeverEnds`.
* The slice in `get_shield_data_length` panics in the compact formats if an offset lies behind the buffer:
  `Serving.PanicsExactlyWhen`. In step it never does: `Serving.LengthAgreesWithStream`.
* The comment on the block cache's `get` explains why a verbosity-2 reply may be served for verbosity 1, and a test says that
  verbosity 0 has no fallback. The code serves a verbosity-1 reply for any other verbosity, 0 among them:
  `BlockCache.InsertThenGet`, `BlockCache.MissExactlyWhen`.

## Model

| member | source | states |
|---|---|---|
| `Bridge.Bridge.IndexNewBlocks` | src/main.rs:274-539 | A second caller changes nothing. Whatever fails: no scanned shield block is missing from the index, at most the search window is undone and only if the cursor's hash was cached, and file, buffer and index stay in step if and only if no append failed and no failed cut shortened the file. On a working disk, against a fixed longer chain, whatever hashes were scanned before and whatever RPC calls fail: what is scanned is a beginning of the outcome function's list; and if no call of the forward loop fails it is that list, the observable state is a fresh scan's if and only if no kept block carries other shield data than the node's, the hashes are the node's if and only if the chain was reachable, and the tip's hash is cached. Without errors, a reorganisation of at most 999 linked blocks above a shared genesis block is undone if the cursor's hash is cached and nothing ahead |
| `Bridge.Bridge.Pass` | src/main.rs:308-534 | The body behind the gate. Under errors too, what lies below the search window stays scanned, and everything does if the cursor's hash was not cached. Against a fixed chain, the scanned hashes are a beginning of: the old ones below the height found, then the node's up to the tip, the first of them from the cache if no reorganisation was seen and it is known there; all of it if no call of the forward loop fails. With no higher block nothing moves |
| `Bridge.Bridge.Run` | src/main.rs:274-539 | Any number of calls, with the node on any chain and the disk failing or not at each, keep the invariant, do not keep the next error-free call from reaching the tip, and leave file, buffer and index in step unless an append failed or a failed cut shortened the file, which never happens on a working disk |
| `Bridge.Bridge.Follow` | src/main.rs:274-539 | Error-free calls against successive longer chains, each parting from the one before above height 0 and less than 1000 blocks below its end, all converge |
| `Bridge.Bridge.StayMissed` | src/main.rs:274-539 | Standing at the node's tip with other hashes below it, error-free calls against ever longer chains on top of that tip undo nothing |
| `Bridge.Bridge.CheckReorg` | src/main.rs:329-391 | The cursor never moves forward; on a working disk, whatever RPC calls fail, it goes back to where the walk ends when both detection calls answer and the cached hash at the cursor is not the parent of the next block, and stays otherwise |
| `Bridge.Bridge.RollBack` | src/main.rs:335-387 | The block cache loses exactly the heights from the fork on, before anything else; the rest of the state is cut back to the same fork or, when the call on the file fails, buffer, index and cursor are unchanged and all are in step if and only if the file is unchanged too |
| `Bridge.Bridge.CutBack` | src/main.rs:346-387 | On success file, buffer, index and cursor are in step for the blocks below the fork, and on a working disk the index is saved; on failure buffer, index and cursor are unchanged, and the three are in step if and only if the file is unchanged too |
| `Bridge.Bridge.FindForkPoint` | src/main.rs:565-621 | The backward walk ends at a height of at least 1 and less than 1000 below where it began, and on a fixed chain, whatever calls fail, at the point that the fork-search theorems are about |
| `Bridge.Bridge.ScanForward` | src/main.rs:400-534 | Only extends what was scanned, against a fixed chain by a beginning of the node's hashes, the first from the cache if known there, and up to the tip if nothing fails; on a working disk the index is saved by the end, after empty blocks too |
| `Bridge.Bridge.ScanNext` | src/main.rs:410-513 | The cursor moves by exactly one, only after the scan succeeded and its shield block, if any, is in the index; otherwise cursor and index stay and the height is retried |
| `Bridge.Bridge.AppendBlock` | src/main.rs:420-470 | The buffer gains the block whatever happens; the index gains it exactly on success; the three are in step for the extended list exactly when the append succeeded, and on a working disk the index is then saved. Under the invariant the duplicate check never fires; `Gate` follows both of its branches |
| `Bridge.Bridge.ScanBlock` | src/scanner.rs:182-210 | A successful scan returns the shield block of a node block of that height, with that block's time, under the cached hash if one is known, and leaves that hash cached; without errors it succeeds |
| `Bridge.Bridge.FetchBlock` | src/scanner.rs:80-107 | For any hash and verbosity: the cache's answer if it has one, and then the cache is unchanged; else the node's reply for that hash up to the two dynamic fields, and then the cache is what `insert` makes of it; else nothing, and no change. It ends whenever the cache can make room |
| `Bridge.Bridge.Serve` | src/api.rs:136-195 | Between calls, in step, `getshielddata` is the encoding of the recorded blocks from the start height on |
| `Bridge.Bridge.ServeLength` | src/api.rs:212-242 | Between calls, whenever file, buffer and index are in step, `getshielddatalength` does not panic and is the length of encoding the recorded blocks between the two heights |
| `Bridge.Bridge.constructor` | src/main.rs:183-215 | Loaded state is taken over as it is, and satisfies the invariant if and only if the scanned hashes explain index and cursor |
| `Bridge.RollbackKeepsCacheFit` | src/main.rs:337-387 | Invalidation from the fork leaves a cache that fits both the shortened and the unshortened scan |
| `Bridge.ListedCut` | src/main.rs:351-371 | The offset looked up for the fork is that of the first recorded block at or above it, and the entries before it are those of the kept blocks |
| `Bridge.InStepCut` | src/main.rs:363-371 | Cutting file and buffer at that offset and the index before that entry leaves all three in step for the kept blocks |
| `Bridge.InStepAppend` | src/main.rs:437-455 | Appending a block's bytes to both and its old end offset to the index keeps the three in step |
| `Bridge.InStepDetermines` | src/main.rs:420-470 | Bytes and index in step for one scan are in step for another if and only if both recorded the same blocks |
| `ForkSearch.ForkSearchIsSafeExactlyWhen` | src/main.rs:565-621 | For any scanned hashes, whatever subset of their heights is cached and whatever calls fail, the result is at or below the true fork if and only if the fork lies inside the window and above it no call fails and no cached height agrees with the node again; it is the fork when the block below it is cached |
| `ForkSearch.ChainsNeverAgreeAgain` | src/main.rs:565-621 | Hashes linked by parents never agree with the node again above the fork |
| `ForkSearch.ForkSearchIsSafeExactlyInWindow` | src/main.rs:565-621 | So for linked hashes the window alone decides |
| `ForkSearch.ForkSearchReaches999Blocks` | src/main.rs:570-571 | In numbers: the search ends at or below the fork if and only if that is above height 0 and fewer than 1000 scanned blocks lie from it on |
| `ForkSearch.SmallReorgIsUndone` | src/main.rs:329-514 | Without errors, a chain that replaces at most 999 linked scanned blocks above a shared genesis block is the outcome, if the cursor's hash is cached and nothing ahead |
| `ForkSearch.SearchFindsHighestStop` | src/main.rs:576-612 | On any cache and chain the walk stops just above the highest height whose call fails or whose cached hash agrees with the node, or at its limit |
| `ForkSearch.PassConvergesExactlyWhen` | src/main.rs:329-514 | For any scanned hashes and failing calls, the outcome of a pass is the node's chain if and only if the chain was reachable |
| `ForkSearch.WalkErrorKeepsOrphans` | src/main.rs:598-611 | A call that fails at or above the fork keeps the pass from the node's chain |
| `ForkSearch.UndetectedReorgIsLost` | src/main.rs:329-334 | If a detection call fails or the cursor's hash is not cached, a reorganisation below the cursor undoes nothing |
| `ForkSearch.MissedForGood` | src/main.rs:329-334 | Standing at the node's tip with other hashes below it, a pass against any longer chain on top, whatever calls fail, only adds to them |
| `ForkSearch.RecordsAgreeExactlyWhen` | src/main.rs:329-514 | What is recorded after such a pass is what a fresh scan records if and only if no kept block carries other shield data |
| `Scenarios.ReorgBeyondWindowKeepsOrphans` | src/main.rs:559-563 | A reorganisation of 1001 blocks with shield data: whatever fitting cache the bridge has, orphaned shield blocks stay recorded |
| `Scenarios.ReorgAfterRestart` | src/block_cache.rs:120-128 | A run: one-block reorganisation after a restart; the tip is reached, all in step, with an orphan for the node's block, for good |
| `Scenarios.ReorgDuringPass` | src/main.rs:409-514 | A run: the node reorganises between two heights of a pass; the cursor's hash is cached and the fork near, and still the orphan stays, for good |
| `Scenarios.ReorgAfterFailedAppend` | src/scanner.rs:188-197 | A run: an append fails, the node reorganises by two blocks, and the retry records the cached orphan and passes it, for good |
| `Scenarios.ReorgWithFailingDetection` | src/main.rs:330-331 | A run: the verbosity-1 call of the detection fails, with the same end |
| `Scenarios.ReorgWithFailingWalk` | src/main.rs:598-611 | A run: one call of the walk fails above the fork, with the same end |
| `Scenarios.ReorgWithFailingCut` | src/main.rs:335-368 | A run: the cut of a rollback fails, and the next call, without errors, has the same end |
| `Chain.SameHashSameHistory` | src/main.rs:329-334 | Two chains with the same hash at a height agree on everything below: a consequence of parent links |
| `Chain.DisagreeFromFork` | src/main.rs:565-621 | Two chains agree at a height if and only if it is below their fork |
| `Chain.ShieldsAreOrdered` | src/main.rs:418-506 | The recorded blocks have strictly increasing heights, all at most the cursor, and are fit for the stream |
| `Chain.ShieldsOfPrefix` | src/main.rs:346-371 | The blocks recorded below a fork are a prefix of all recorded ones, and the others lie at or above it |
| `Chain.ShieldsEqualExactlyWhen` | src/main.rs:418-506 | Two scans of the same length record the same blocks if and only if they do so height by height |
| `Chain.ShieldsContain` | src/main.rs:418-506 | Whatever shield data a scanned block carries is recorded |
| `Chain.FoundBlockIsTheNodes` | src/scanner.rs:114-178 | A block found has the height and the time of the node's block and holds exactly its shielding transactions; none is found if and only if there are none |
| `Chain.RecordedAreTheNodes` | src/main.rs:418-506 | So it is for every recorded block and the scanned block of its height |
| `RpcNode.Node.GetBlockHash` | src/rpc.rs:94-99 | A steady node answers from its active chain; any other may fail or answer with any block of that height |
| `RpcNode.Node.GetBlock` | src/rpc.rs:101-103 | A reply is the named block up to the two dynamic fields |
| `Gate.StepIsLocal` | src/main.rs:291-306 | A step changes the phase of one task only, which was past the gate already or enters through a clear flag |
| `Gate.GateExcludes` | src/main.rs:283-306 | For any number of tasks and any interleaving at most one is past the compare-exchange |
| `GatePasses.CanLeave` | src/main.rs:299-306 | From every state in which a task is inside, some steps of its own take it out and clear the flag; nobody is inside then and any task may enter. The cursor moves by one on the way if and only if a block was in hand |
| `GatePasses.ShieldPass` | src/main.rs:291-506 | From every state with a clear flag, whatever failed before, a whole call that finds a new shield block adds its bytes to file and buffer, its entry at the file's old end to the index, saved as the disk allows, moves the cursor by one, and leaves the gate to anyone |
| `GatePasses.EmptyPass` | src/main.rs:497-506 | A whole call over a height without shield data moves the cursor by one, changes nothing else, and leaves the gate to anyone |
| `GatePasses.KnownTurnStoresNothing` | src/main.rs:421-429 | A height that the index knows is passed without storing anything |
| `GatePasses.FailedTurn` | src/main.rs:437-474 | A write that fails leaves its part in the file and the whole block in the buffer, index and cursor as they were, and the gate to anyone |
| `GatePasses.FailureEndsCall` | src/main.rs:471-474 | After a failed write only the buffer is extended, and nothing else happens, whoever steps, until the gate is given back |
| `GatePasses.BlockIsSeenThrough` | src/main.rs:420-490 | With a block in hand no step but the next one of that block does anything, or the write fails |
| `GatePasses.ChecksOnce` | src/main.rs:329-391 | A call rolls back at most once, before it scans |
| `GatePasses.OthersWait` | src/main.rs:291-298 | While a task is inside, a step of any other changes nothing |
| `GatePasses.CallsAreSerial` | src/main.rs:283-306 | Until it leaves, a call goes as if no other task were there, however they are interleaved |
| `GatePasses.CallStoresAllFound` | src/main.rs:400-514 | From every state with a clear flag and no uncut failure, a call over any number of heights records exactly the shield blocks found, in order, in file, buffer and index, moves the cursor to the last height, and leaves the gate to anyone |
| `GatePasses.ReorgCuts` | src/main.rs:346-387 | With no uncut failure, a reorganisation leaves exactly the recorded blocks below the fork in file, buffer and index and the cursor under the fork; a refused cut changes nothing, and one that fails after shortening the file changes only the file |
| `Gate.NextKeepsInv` | src/main.rs:346-470 | Each single step of file append, buffer append, index add, advance, reorganisation or failure, a cut that fails after shortening the file among them, keeps the invariant: alignment while every failure has been cut off, and the recorded beginning of all three otherwise |
| `Gate.RunKeepsInv` | src/main.rs:274-514 | So does every run |
| `Gate.StartSatisfiesInv` | src/main.rs:43-60 | The empty bridge satisfies it |
| `Gate.IndexBufferFileArePrefixes` | src/main.rs:420-470 | Along every run, whatever fails. While every failure on the file has been cut off again: the index is a prefix of the buffer, the buffer of the file, the index at most one block behind, all equal when the flag is clear, and no height is in the file twice. Otherwise all three begin with the blocks recorded before the failure and the index is in order |
| `Gate.ReorgRepairs` | src/main.rs:346-387 | A reorganisation that cuts into those blocks puts all three back in step |
| `Gate.RetryStoresTwice` | src/main.rs:437-474 | A run: a write that fails after any number of bytes and its retry leave the block twice in the buffer, and twice in the file if all bytes had been written |
| `Gate.RetryReply` | src/api.rs:144-164 | A client's reply after that run: made of whole copies of the block if and only if nothing or all of it had been written |
| `Gate.RetryLosesTransactions` | src/api.rs:144-164 | When the write had stopped between two transactions, the reply encodes the block without the first ones, then the block |
| `Gate.StartSatisfiesCursorInv` | src/main.rs:43-60 | The empty bridge satisfies the cursor invariant |
| `Gate.RunSkipsNone` | src/main.rs:400-506 | Over every run, whatever fails and is reorganised, each height up to the cursor whose latest scan found a shield block is in the index |
| `Gate.CursorNeverSkips` | src/main.rs:400-506 | Whatever fails, apart from reorganisations the cursor moves by one, after an empty scan or past a height that is in the index |
| `Gate.AppendsOnly` | src/main.rs:437-451 | Apart from reorganisations every step leaves the buffer as it is or one whole scanned block longer, a failed append included |
| `Gate.ReaderIsSoundUnderAppends` | src/api.rs:144-164 | From a state without uncut failures, a reader whose two reads are separated by any steps but reorganisations, failed appends included, gets the indexed blocks from its start on followed by whole scanned blocks |
| `Gate.LengthUnderInterleaving` | src/api.rs:212-242 | Read between any two steps of such a state, the count is exact for the indexed blocks if and only if the index is not behind the buffer, or nothing is indexed from the start on, or something is indexed above the end |
| `Gate.ReaderIsTornByReorg` | src/api.rs:144-164 | A concrete reorganisation between the two reads leaves a reply that is no list of blocks |
| `Gate.CrashDuringAppend` | src/cache.rs:282-314 | After a crash at any byte of an append, from a state without uncut failures, recovery leaves whole blocks if and only if one is there or nothing was written; and if the last save after a reorganisation succeeded, the saved index is a prefix of the recovered file's |
| `BlockCache.BlockCache.Insert` | src/block_cache.rs:87-112 | Terminates whenever fewer than `capacity` replies are out of eviction's reach; a present key is a no-op; otherwise the lowest heights go until there is room and the stripped reply enters both maps |
| `BlockCache.BlockCache.EvictLowest` | src/block_cache.rs:163-173 | Exactly the lowest height and the replies under its hash go |
| `BlockCache.BlockCache.InvalidateFrom` | src/block_cache.rs:131-151 | In whatever order the heights are visited, the result is both maps without the heights from the fork on and what their hashes hold |
| `BlockCache.BlockCache.Get` | src/block_cache.rs:48-80 | A hit is the reply rehydrated, from the other verbosity if need be; exactly one of the two counters moves |
| `BlockCache.BlockCache.constructor` | src/block_cache.rs:33-41 | The empty cache is consistent |
| `BlockCache.EvictionEndsExactlyWhen` | src/block_cache.rs:98-101 | Repeated eviction makes room if and only if fewer than `capacity` replies are unreachable through the reverse map |
| `BlockCache.EvictionMayNeverEnd` | src/block_cache.rs:98-101 | In no cache, of any capacity, that holds that many replies of a verbosity above 2 |
| `BlockCache.FloodedCacheNeverEnds` | src/block_cache.rs:87-112 | Which is where, from the empty cache of any capacity, that many inserts of verbosity 3 lead |
| `BlockCache.InsertKeepsRegime` | src/block_cache.rs:87-112 | While each height has one hash, insertion keeps the maps mutually consistent, within capacity, and terminating |
| `BlockCache.InsertEvictsLowest` | src/block_cache.rs:87-173 | With room nothing is evicted; every evicted height is below every survivor; the replies of one height go or stay together; the new reply is there |
| `BlockCache.EvictUntilRemovesLowest` | src/block_cache.rs:98-101 | The loop removes a set of heights below all others, from both maps, and no more of them than needed |
| `BlockCache.InsertThenGet` | src/block_cache.rs:48-112 | In any state: an inserted reply is served again for its own verbosity, for 1 if it is of 2, and for any other if it is of 1, when that one holds nothing of its own; with confirmations of at least 1, the successor if its hash is known, and everything else unchanged |
| `BlockCache.MissExactlyWhen` | src/block_cache.rs:48-64 | Nothing is served if and only if neither the verbosity asked for nor its substitute is held |
| `BlockCache.ForgetRemovesHeight` | src/block_cache.rs:168-172 | Evicting a height removes exactly its replies, and at least one: the termination measure of the loop |
| `BlockCache.InvalidationIsExact` | src/block_cache.rs:131-151 | Exactly the cached heights at or above the fork disappear, from both maps |
| `BlockCache.HitAgreesWithNode` | src/block_cache.rs:48-80 | On the active chain an exact hit is the node's own answer, confirmations included; only a successor the cache does not hold is left out |
| `BlockCache.InvalidationRestoresAgreement` | src/block_cache.rs:131-151 | After a reorganisation, invalidating from any height up to the fork puts the cache back on the new chain |
| `Cache.CacheFile.AppendBlocks` | src/cache.rs:23-40 | Success means the file grew by exactly the encoding and the triples hold each block's height, offset and length; failure is counted and means some part of it, from its start, was written, none if every call fails |
| `Cache.TripleAt` | src/cache.rs:23-40 | Triple k holds the height of block k, the file's end plus the encoded length of the blocks before it, and its own encoded length |
| `Cache.CacheFile.TruncateTo` | src/cache.rs:54-63 | Success cuts at the offset; failure leaves the file untouched or already cut, and only the latter is counted |
| `Cache.CacheFile.RecoverCache` | src/cache.rs:282-314 | A readable, writable file is left as the recovery theorems describe; a height is only reported for a recovered file |
| `Cache.FindLastFooter` | src/cache.rs:317-340 | The walk computes the footer end that the next rows are about, in bounds and terminating on every byte string |
| `Cache.LastFooterOfPackets` | src/cache.rs:317-340 | For any packets below 4 GiB, whoever wrote them, and any cut: the end of the last nine-byte packet starting with 0x5d that lies wholly before the cut, or none if there is none |
| `Cache.LastFooterOfCut` | src/cache.rs:317-340 | For every block list and byte cut: the end of the last wholly contained block, or none; raw transactions are never taken for footers |
| `Cache.TornWriteRecovery` | src/cache.rs:282-314 | What recovery leaves of any cut is the encoding of the wholly contained blocks, with the last one's height reported; with none contained the cut stays as it is |
| `Cache.RecoveryRemovesTornBlockExactlyWhen` | src/cache.rs:282-314 | Only whole blocks remain if and only if one was wholly contained or the cut is empty |
| `Cache.FirstTornBlockStays` | src/cache.rs:288 | Every cut inside the first block survives recovery as it is, with no height reported |
| `Cache.RecoveryIsIdempotent` | src/cache.rs:282-314 | On every byte string, recovering twice is recovering once |
| `Index.ShieldIndex.Add` | src/index.rs:71-76 | A known height changes nothing; a height above all others extends both lists in step and in order |
| `Index.ShieldIndex.RemoveFrom` | src/index.rs:100-103 | Both lists are cut to the entries before the partition point of the height, still in step |
| `Index.ShieldIndex.Save` | src/index.rs:53-68 | The saved index is replaced whole or, when the disk fails, not at all |
| `Index.PartitionPoint` | src/index.rs:94-97 | The first entry at or above the height |
| `Index.OffsetIsBoundary` | src/index.rs:94-97 | The offset of a height splits the stream into the encodings of the blocks below it and of the blocks from it on |
| `Index.BytesBetween` | src/index.rs:108-116 | The bytes between the offsets of two heights encode exactly the blocks between them |
| `Serving.GetShieldData` | src/api.rs:136-195 | Computes the reply that the next rows are about, for every index and buffer |
| `Serving.GetShieldDataLength` | src/api.rs:212-242 | For every index and buffer, computes the count that the next rows are about, or panics where the slice would leave the buffer |
| `Serving.PanicsExactlyWhen` | src/api.rs:227-238 | For every index and buffer: the slice panics if and only if the format is compact, the start's offset lies inside the buffer and the end's offset behind it |
| `Serving.ServedSliceIsFilteredStream` | src/api.rs:136-195 | In step, the reply in each format is the encoding of the recorded blocks with height at least the start |
| `Serving.StaleOffsetServesWholeBlocks` | src/api.rs:144-164 | With an index read older than the buffer read, a non-empty reply is that encoding followed by whole newer blocks |
| `Serving.LengthAgreesWithStream` | src/api.rs:212-242 | In step, for all starts and ends, reversed ones included, there is no panic and the count is the length of encoding the blocks in range, in each format |
| `Serving.LengthUnderAppend` | src/api.rs:212-242 | With a buffer that is ahead of the index, the count covers the indexed blocks in range and all newer blocks or none of them, and which |
| `Serving.LengthIsExactExactlyWhen` | src/api.rs:212-242 | It is exact for the indexed blocks if and only if nothing newer is there to be taken in, or nothing is indexed from the start on, or something is indexed above the end |
| `Serving.LengthsAreAdditive` | src/api.rs:212-242 | Counts add up over adjacent ranges |
| `Transform.PivxCompatToCompact` | src/api.rs:249-288 | The walk computes the function that the commuting diagram is about, in bounds and terminating on every byte string |
| `Transform.EncodeCompactPacket` | src/api.rs:291-330 | The second packet encoder produces the same bytes as the first one, type byte 0x04 or 0x05 included |
| `Transform.TransformsCut` | src/api.rs:249-288 | Transforming any cut of a stored stream is encoding its wholly contained blocks |
| `Transform.TransformCommutes` | src/api.rs:249-330 | Transforming the stored stream equals encoding the blocks directly, in both compact formats |
| `Transform.TransformsPackets` | src/api.rs:249-288 | For any packets below 4 GiB, whoever wrote them, and any cut: each footer becomes a header of its first five bytes, followed by a packet for each pending payload that serialises a transaction with Sapling data, up to an empty packet or a cut one |
| `Stream.EncodeShieldStream` | src/stream.rs:56-68 | The stream is the concatenation of the block encodings, in the format asked for |
| `Stream.EncodePivxCompat` | src/stream.rs:74-86 | Appends framed raw transactions, then the framed footer with height and time |
| `Stream.EncodeCompact` | src/stream.rs:89-98 | Appends the header, then a 0x04 packet for each transaction that has compact data |
| `Stream.EncodeCompactPlus` | src/stream.rs:101-109 | Appends the header, then 0x05 packets likewise |
| `Stream.EncodeCompactTx` | src/stream.rs:123-147 | Appends one framed compact payload, whose type byte `Stream.PacketTypes` gives |
| `Stream.EncodeCompactPlusTx` | src/stream.rs:150-173 | Appends one framed 0x05 payload |
| `Stream.PrefixIsExact` | src/stream.rs:145-146 | The length prefix names the payload's length if and only if that is below 4 GiB |
| `Stream.PacketTypes` | src/stream.rs:15-22 | Byte 4 of a packet is 0x04 for compact and 0x05 for compact+ transactions, and 0x5d behind length 5 for headers and length 9 for footers |
| `Stream.EncodeStreamAppend` | src/stream.rs:56-68 | Encoding distributes over concatenation: what makes appending sound |
| `Client.StoredRoundTrip` | src/stream.rs:74-86 | From any byte cut a client reads back exactly the wholly contained blocks: heights, times and transactions |
| `Client.StoredIsInjective` | src/stream.rs:74-86 | A stored stream determines its blocks |
| `Client.CompactRoundTrip` | src/stream.rs:89-173 | A compact stream reads back as the heights and projected transactions of its blocks |
| `Client.StoredReplyIsRead` | src/api.rs:136-165 | A client of the default format receives exactly the recorded blocks from its start on |
| `Client.CompactReplyIsRead` | src/api.rs:167-195 | A client of a compact format receives exactly those blocks, projected |
| `Client.CompactionShrinks` | src/api.rs:291-330 | A scanned transaction's compact payload is shorter than its raw bytes, so its length prefix is exact |
| `CompactPacket.CompactPacketRoundTrip` | src/stream.rs:123-173 | In any surroundings and for any counts, a 0x04 packet decodes to its transaction, a 0x05 packet to the projection on cmu, epk and enc, and the decoder ends behind the packet |
| `CompactPacket.CompactKeepsEverything` | src/stream.rs:133-141 | The 0x04 projection loses nothing |
| `CompactPacket.PlusSaves112BytesPerOutput` | src/api.rs:295-297 | The payloads of the two formats differ by 112 bytes per output |
| `Scanner.ScanBlockInner` | src/scanner.rs:114-178 | The shield block holds, in order, exactly the transactions whose hex, inline or fetched by identifier, decodes to a v3 Sapling header and parses to Sapling data; whatever cannot be read is skipped; none if none are left; an error if the reply has no `tx` array |
| `Scanner.ReadTx` | src/scanner.rs:134-154 | An element gives the bytes its hex decodes to on this build, and nothing if it has none, the fetch failed or the length is odd |
| `Scanner.HexIsRead` | src/scanner.rs:133-154 | Inline or fetched, Base16 is read as the bytes it denotes; nothing is read if and only if the length is odd, the fetch failed, or there is neither hex nor identifier |
| `Scanner.Filter` | src/scanner.rs:157-171 | Keeps a transaction with its parse, or skips it, as the next rows say |
| `Scanner.FoundBlockHoldsExactlyShielding` | src/scanner.rs:157-178 | The block has the height and time given and holds, with what each carries, exactly and in order the transactions that start with 03 00 00 00 and serialise Sapling data; none is found if and only if there are none |
| `Scanner.NothingShieldingIsDropped` | src/scanner.rs:157-171 | No serialised v3 transaction with a spend or an output is dropped, wherever it stands |
| `Scanner.RenderedIsReadBack` | src/scanner.rs:133-154 | On every build, the scanner gets exactly the bytes that the node wrote in hex |
| `Scanner.ScannerEmitsScannedBlocks` | src/scanner.rs:157-178 | Every emitted block meets what the stream walkers rely on: raw starts 03 00 00 00, compact is the parse of raw, never empty |
| `SaplingTx.ParseSaplingTx` | src/scanner.rs:316-359 | Reads only in bounds on every byte string; however large the claimed counts, vin iterations stay within one per 41 bytes plus one, all iterations within one per 9 bytes plus one |
| `SaplingTx.ParseSaplingDescs` | src/scanner.rs:363-412 | Spends and outputs are read in order from their fixed offsets, with at most one iteration per 384 bytes plus one |
| `SaplingTx.ParserInvertsSerialisation` | src/scanner.rs:316-412 | Parsing any serialised v3 transaction gives its nullifiers and cv/cmu/epk/enc/out in order, or none when Sapling data is absent, cut short or empty |
| `SaplingTx.ParserAcceptsExactly` | src/scanner.rs:316-412 | A byte string is accepted with a result if and only if it is the serialisation of a transaction that carries it |
| `SaplingTx.CarriedWhole` | src/scanner.rs:363-412 | A transaction carries something if and only if its Sapling data is there and has a spend or an output; then each spend's nullifier and each output's note, in order |
| `SaplingTx.DescriptionOffsets` | src/scanner.rs:371-404 | Descriptions of 384 and 948 bytes, the nullifier at 64, the note's fields at 0, 32, 64, 96 and 676 |
| `SaplingTx.DissectTx` | src/scanner.rs:316-412 | Accepted bytes split into header, transparent part, value balance, descriptions and a tail |
| `SaplingTx.ParsedIsWellFormed` | src/scanner.rs:316-412 | Parsed fields have their fixed sizes and are not all absent |
| `CompactSize.WriteCompactSize` | src/stream.rs:36-49 | Appends the bytes that the next rows are about, up to truncation at 64 bits |
| `CompactSize.WrittenMarkers` | src/stream.rs:36-49 | One byte up to 0xFC; 0xFD, 0xFE and 0xFF in front of two, four and eight bytes, chosen by the literal thresholds, least significant byte first |
| `Bytes.LittleEndian` | src/stream.rs:36-49 | Byte i of a written integer has weight 256 to the i |
| `CompactSize.ReadCompactSize` | src/scanner.rs:415-436 | A successful read lies inside the data |
| `CompactSize.RoundTripInContext` | src/stream.rs:36-49 | Between any prefix and suffix, reading returns the number written and consumes exactly its bytes |
| `CompactSize.WrittenFormIsShortest` | src/stream.rs:36-49 | No bytes that the reader turns into a number are fewer than those the writer produces for it |
| `CompactSize.ReadsEncodedAt` | src/scanner.rs:415-436 | Every fitting encoding, longer ones too, is read back wherever it stands |
| `CompactSize.ReadsOnlyEncodings` | src/scanner.rs:415-436 | Nothing else is read |
| `Packets.PacketStep` | src/cache.rs:321-337 | A walker at a packet stops if the data is cut inside it, and otherwise reads exactly its payload and stands behind it |
| `Packets.FooterStep` | src/stream.rs:81-85 | A whole footer is recognised and yields the height and time written |
| `Packets.WholeBlocksIsMaximal` | src/cache.rs:317-340 | The number of wholly contained blocks, used above, is the largest whose encoding fits the cut |
| `Hex.HexDecode` | src/hex.rs:43-50 | Odd lengths are refused; on every build a string of digits in either case decodes to the bytes it denotes in Base16 (section 8 of RFC 4648) |
| `Hex.DecodeSse2` | src/hex.rs:102-148 | Chunk loop and remainder together write each byte once and in order: the vector formula for whole chunks, the table behind them |
| `Hex.DecodeNeon` | src/hex.rs:53-99 | Likewise in chunks of 32 characters, each byte written once and in order |
| `Hex.DecodeScalar` | src/hex.rs:151-161 | One table byte per pair of characters |
| `Hex.OthersAreZero` | src/hex.rs:17-36 | The table decodes whatever is no digit like the digit 0 |
| `Hex.Sse2ChunkLanes` | src/hex.rs:116-135 | The SSE2 instruction sequence computes the vector formula in each output lane |
| `Hex.NeonChunkLanes` | src/hex.rs:64-86 | So does the NEON one |
| `Hex.MixedIsDecodedExactlyWhen` | src/hex.rs:36-42 | A vector decoder agrees with the table if and only if each vectored character has the table's nibble |
| `Hex.VectorRefinesTableOnDigits` | src/hex.rs:36-42 | Which all hexadecimal digits have |
| `Hex.AtSignDiffers` | src/hex.rs:34-36 | A concrete character that does not |
| `Hex.DecodingInvertsBase16` | src/hex.rs:43-50 | A string is Base16 for some bytes if and only if it is an even number of digits that decode to them |

## Left out

- HTTP routing, responses, logging, compression, CLI and environment configuration, the SQLite address index: plumbing around the core.
- The RPC client, ZMQ subscription and poll timers: the node is an object that may fail or switch chains, callers are arbitrary steps.
- Parsing JSON text: a reply is a record whose optional fields say what the scanner would find, and a transaction fetched by identifier is given with the node's answer.
- Start-up: `init_network`, `scan_range` and `find_fork_point_via_rpc`. The state they leave may skip blocks and need not satisfy the invariant.
- Errors that come and go within one call: in a call against a fixed chain each RPC call either always fails or never does.
- The persisted scan cursor and `last_scanned_hash`: nothing inside a pass reads them.
- JSON formats of index and cursor: saving is one atomic step that may fail.
- Crashes in the middle of a reorganisation: no reconciliation exists in the code. Crash results are about appends.
- Locks and deadlock freedom: steps are taken at awaits; the three locks of a reorganisation make it one step.
- Proxy inserts into the block cache: only the scanner fills it in `Bridge`; what other inserts can do to the loop of `insert` is stated exactly in `BlockCache`.
- Bridge.Bridge.Follow: sets the node to each chain in turn, as `StayMissed` does; no code of the bridge corresponds to that.
- BlockCache.HitAgreesWithNode: is about exact-verbosity hits, because the fallback may serve a reply of another verbosity.
- SaplingTx.ParseSaplingTx: offsets are mathematical integers, so wrap-around of `usize` sums is not modelled.
- Index.PartitionPoint: is the first match in order, which binary search finds on the sorted lists every caller has.
- Bridge.Bridge.FindForkPoint: heights are unbounded naturals, so saturation at the largest 32-bit height is not modelled; neither are wrapping hit and miss counters, nor verbosities wrapping at 256.
- Scanner.ScanBlockInner: a height or time in a reply that does not fit 32 bits is taken as it is, where the code truncates it.
- Vector registers are sequences of lanes; intrinsics are modelled by what they do to each lane.
- `HashCache`, `base64_encode`, `parse_params`, `heights_from`, `stats`: easy members beside the core.
- Validity of proofs, signatures and ciphertexts: opaque bytes here.
