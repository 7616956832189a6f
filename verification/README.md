# Shielded-pool client: state and money logic

A Dafny model of the state and money logic of a Go client for a shielded pool, with proofs about all inputs and all runs.
Every component whose source updates state in place is a class or a method with loops, proved against a function on values;
the properties are lemmas about those functions. `dafny verify dfyconfig.toml` checks the whole project.

| component | modules |
|---|---|
| sparse incremental Merkle tree, its paths and its JSON forms | `Bits`, `MerkleModel`, `MerkleRoot`, `MerklePaths`, `MerkleJson`, `MerkleTree` |
| speculative trees and paths for the circuit | `Speculative`, `CircuitPaths` |
| snapshots and event synchronisation | `SnapshotModel`, `SnapshotJson`, `Replay`, `SyncModel`, `WatermarkThreads`, `ServiceTree`, `Services`, `Emitter`, `Paging` |
| finding, choosing, padding and creating notes | `Utxos`, `OwnedNotes`, `Padding`, `Outputs` |
| checking a prepared transaction before signing it | `Enclave`, `EnclaveAmounts`, `PrepareTx`, `SignedBalance`, `SignCheck`, `NoteHashes`, `HonestExchange`, `StuckWithdraw`, `Field` |
| fees | `Fees` |
| texts, encodings and logs | `Numbers`, `Text`, `Positions`, `RawBytes`, `SealedKeys`, `HexFields`, `SolanaLogs` |
| the single-flight handshake | `Handshake` |

## How things are represented

- `big.Int` is `int`; where the code reduces, wraps, truncates or floors, so does the model (`Fees.Quo` rounds toward zero, the recipient
  count of `SealedKeys` keeps one byte, `Field.Wrap` adds the field order once).
- A Go map is a `map`, a slice a `seq`, or an `array` where it is filled or changed by index. Map keys printed from integers are those integers.
- Hashes, boxes, base58, note decoding, log sources and the clock are parameters. The tree's hash never returns zero where a lemma says
  `NeverZero`; boxes open what they sealed where it says `Sound`. Nothing is assumed of Poseidon in notes: where a balance could be broken
  by a collision, the lemma says so and `NoteHashes` names the colliding inputs.
- What remote parties answer, and whether a save or a fetch succeeds, is an arbitrary parameter of each step.
- A Go panic is a precondition of the member (a leaf slot below the leaf row, a division by zero), except that a request row of recipient
  amounts too short for its tokens, on which the code panics, is refused by `EnclaveAmounts.OutSlotAt`.

## Where a stronger claim is false

Each of these has an exact condition, or a lemma for every input of the failing kind:

- removing an absent leaf is not counted, and a tree without gaps can then refuse its root: `MerkleRoot.RemoveAbsentLosesRoot`, exactly when `MerkleModel.RemoveValidIff`;
- a slot past the leaf row is not refused and overwrites a leaf: `MerkleModel.PastRowOverwritesLeaf`, exactly when `MerkleModel.InsertValidIff`
  (the smallest tree: `MerkleRoot.SlotPastRowOverwritesLeaf`);
- overwriting a leaf leaves its old value in the reverse index: `MerklePaths.OverwriteIsStale`;
- the JSON reader assumes 200 levels: `MerkleJson.FullRoundTripIff`; a snapshot saved under block zero loses its tree: `SnapshotJson.SnapshotRoundTripIff`;
- a repeated commitment or ciphertext breaks the agreement of tree, outputs and map: `SnapshotModel.NotNovelBreaks`, `SnapshotModel.AcceptIsConsistentIff`;
- concurrent first syncs leave the minimum only when they agree: `WatermarkThreads.FirstSyncsLeaveMinimumIff`;
- a failed save is not retried while deliveries are quiet: `Services.FailedSaveIsNotRetried`, `Services.SuccessMeansStoredIff`;
- the note cache does not notice an output that left the list: its note is still returned (`OwnedNotes.RemovedOutputIsStillReturned`), and if it was
  the last one scanned nothing is scanned again until a reset (`OwnedNotes.GoneOutputFreezesCache`); exactly when: `OwnedNotes.ScanAnswersRescanIff`;
- the check of amount changes cannot tell x from x plus or minus the field order: `Outputs.AcceptedIffSameOrOneTurn`;
- the spend-set check needs distinct authorised commitments, `Enclave.SpendSetIsAuthorisedIff`, and lets one note be spent in two slots:
  `HonestExchange.OneNoteInTwoSlotsIsAccepted`, exactly when `SignedBalance.EachSpentOnceIff`;
- below the flat fee a withdrawal does not fit its input: `Fees.WithdrawalBelowFlatFee`;
- past 255 recipients sealed keys no longer open: `SealedKeys.SealedKeysRoundTripIff`;
- an address without its prefix comes back as another number: `HexFields.PrefixKeepsNumberIff`;
- invalidating the handshake does not stop a fetch in flight (`Handshake.InvalidationMissesFetchInFlight`): exactly when, `Handshake.InvalidationIsFinalIff`;
- paging on 64-bit numbers goes wrong when the number after the last page does not fit: `Paging.Pages64Iff`.

## Model

| member | source | states |
|---|---|---|
| `MerkleModel.NewIsValid` | internal/data-structures/merkletree/impl.go:23-37 | A new tree, with any number of levels, satisfies the invariant: bounded index, hashed inner nodes, every ancestor up to the height stored, count equal to the number of stored leaves. |
| `MerkleModel.ClimbFrame` | internal/data-structures/merkletree/impl.go:278-306 | A climb changes nothing but the nodes on the path from the written leaf up to the current height. |
| `MerkleModel.ClimbHashes` | internal/data-structures/merkletree/impl.go:291-305 | After a climb every node on the path is the hash of its two current children, although the children are read while ancestors are still stale. |
| `MerkleModel.ClimbIsValid` | internal/data-structures/merkletree/impl.go:278-306 | Climbing from a freshly written leaf restores the whole invariant, also when the height has just grown and older leaves were never climbed that far. |
| `MerkleModel.AboveHeightAbsent` | internal/data-structures/merkletree/impl.go:278-306 | No node above the current height is stored. |
| `MerkleModel.InsertIsValid` | internal/data-structures/merkletree/impl.go:89-98 | Inserting at any slot of the leaf row (a gap, a late fill, an overwrite) keeps the invariant. |
| `MerkleModel.InsertValidIff` | internal/data-structures/merkletree/impl.go:89-98 | A slot past the leaf row is not refused; an insertion keeps the tree valid exactly when the slot is in the row. |
| `MerkleModel.PastRowOverwritesLeaf` | internal/data-structures/merkletree/impl.go:278-306 | In every tree, an insertion past the row overwrites the slot's ancestor in the leaf row with a hash. |
| `MerkleModel.RemoveValidIff` | internal/data-structures/merkletree/impl.go:100-102 | Removing keeps the tree valid exactly when the leaf was present. |
| `Bits.CeilLog2Bounds` | internal/data-structures/merkletree/impl.go:324-329 | The bit-length formula gives the height of the smallest tree that holds n leaves. |
| `MerkleRoot.CompleteIffFilled` | internal/data-structures/merkletree/impl.go:148-155 | Count equals index minus start exactly when no slot in between is missing (a pigeonhole argument on the stored leaves). |
| `MerkleRoot.StoredIffUnderIndex` | internal/data-structures/merkletree/impl.go:278-306 | In a filled tree the stored nodes up to the height are exactly those with a leaf below them. |
| `MerkleRoot.NodeIsRootOfLeaves` | internal/data-structures/merkletree/impl.go:278-306 | Such a node holds the root computed recursively, from scratch, of the leaves below it. |
| `MerkleRoot.FirstOnSpineIsRoot` | internal/data-structures/merkletree/impl.go:131-144 | The first non-zero node on the left spine of a filled tree is the recursive root of its leaves. |
| `MerkleRoot.RootHashIsRecursiveRoot` | internal/data-structures/merkletree/impl.go:131-144 | The root is available exactly when every slot is filled, and is then the recursive root of the current leaves. |
| `MerkleRoot.RunIsValid` | internal/data-structures/merkletree/impl.go:89-102 | After any run of insertions and removals of present leaves the tree is valid and its leaves are the last writes. |
| `MerkleRoot.RootAfterAnyRun` | internal/data-structures/merkletree/impl.go:131-144 | For every such run, in any order and with gaps, late fills and overwrites, the root is available exactly when every slot up to the highest one was written, and then is the recursive root of the last writes. |
| `MerkleRoot.OrderIsIrrelevant` | internal/data-structures/merkletree/impl.go:89-98 | Two runs with the same last writes give the same root or both fail. |
| `MerkleRoot.RemoveAbsentLosesRoot` | internal/data-structures/merkletree/impl.go:100-102 | Removing an absent leaf and filling it later leaves a tree without gaps that refuses to give a root. |
| `MerklePaths.FoldClimbs` | internal/data-structures/merkletree/impl.go:183-227 | Folding the first m siblings of a leaf by their sides gives its m-th ancestor. |
| `MerklePaths.SiblingAboveHeight` | internal/data-structures/merkletree/impl.go:157-205 | Above the height every sibling of a leaf is absent, but for the root standing in as its own sibling. |
| `MerklePaths.AuthenticationPath` | internal/data-structures/merkletree/impl.go:157-227 | In a complete tree of at most 2^25 leaves every item stored at its indexed slot folds, with its first ceil(log2 n) siblings and sides, to the root, and all later siblings are the default. |
| `MerklePaths.InsertKeepsIndex` | internal/data-structures/merkletree/impl.go:284-285 | Filling a free slot leaves no stale reverse entry; with a new value the reverse index stays the exact inverse. |
| `MerklePaths.OverwriteIsStale` | internal/data-structures/merkletree/impl.go:284-285 | Overwriting a leaf with another value always leaves the old value in the reverse index. |
| `MerkleJson.FullRoundTripIff` | internal/data-structures/merkletree/impl.go:39-79 | Reading back the full form gives the same tree exactly when it has 200 levels. |
| `MerkleJson.ReverseOfIsLatest` | internal/data-structures/merkletree/impl.go:308-318 | The rebuilt reverse index maps every value to its last slot and nothing else. |
| `MerkleJson.LiteRoundTripIff` | internal/data-structures/merkletree/impl.go:246-256 | Reading back the lite form of a complete 200-level tree gives the same tree exactly when its index names last slots. |
| `MerkleJson.FreshTreeIsIndexed` | internal/data-structures/merkletree/impl.go:89-98 | A tree built from distinct leaves at distinct slots has a reverse index that is the exact inverse of its leaf map. |
| `MerkleJson.FreshTreeRoundTrips` | internal/data-structures/merkletree/impl.go:229-256 | Such a tree, complete and with 200 levels, survives both JSON forms unchanged. |
| `MerkleTree.SparseTree.Insert` | internal/data-structures/merkletree/impl.go:89-98 | The object's maps, count and index after an insertion, as the value model says. |
| `MerkleTree.SparseTree.Remove` | internal/data-structures/merkletree/impl.go:100-102 | The same for a removal: count and index stay. |
| `MerkleTree.SparseTree.ForceInsert` | internal/data-structures/merkletree/impl.go:278-306 | The in-place climb over the ceil(log2) ancestors equals the recursive climb of the model. |
| `MerkleTree.SparseTree.GetRootHash` | internal/data-structures/merkletree/impl.go:131-144 | The loop over the left spine gives the model's root, or the incompleteness error. |
| `MerkleTree.SparseTree.GetSiblingHashesForVerification` | internal/data-structures/merkletree/impl.go:183-205 | The loop to the root gives the model's sibling hashes, cut to 25, zeros for an unknown item, or the error. |
| `MerkleTree.SparseTree.GetSiblingSides` | internal/data-structures/merkletree/impl.go:207-227 | The same for the sides. |
| `MerkleTree.SparseTree.Clone` | internal/data-structures/merkletree/impl.go:258-276 | A new object in the same state. |
| `MerkleTree.SparseTree.RebuildReverseTree` | internal/data-structures/merkletree/impl.go:308-318 | One pass over the first count slots gives the rebuilt index the lite form is read with. |
| `MerkleTree.SparseTree.LastLeaves` | internal/data-structures/merkletree/impl.go:114-129 | The loop reads the last slots of the first count ones, latest first, skipping absent and zero leaves. |
| `MerkleTree.LatestOfComplete` | internal/data-structures/merkletree/impl.go:114-129 | In a complete tree of non-zero leaves these are exactly the newest n leaves. |
| `Speculative.PresentCountBounds` | internal/functions/pre-transaction/speculative_utxo.go:62-84 | None or all of the pending leaves are counted present exactly when none or all are in the tree's index. |
| `Speculative.AppendAllExtends` | internal/functions/pre-transaction/speculative_utxo.go:85-96 | Appending to a tree with room keeps it valid, keeps every live leaf, adds exactly the pending leaves in order and leaves no stale entry. |
| `Speculative.SpeculativeRoot` | internal/functions/pre-transaction/speculative_utxo.go:62-114 | The chosen tree has a root exactly when the live tree is complete, and it is the recursive root of the live leaves followed by the pending ones. |
| `Speculative.SpeculativePathsFold` | internal/functions/pre-transaction/speculative_utxo.go:97-113 | A positive input commitment of an accepted batch that is really stored, in the live tree or among the leaves appended, folds to the chosen tree's root. |
| `Speculative.CloneAndAppend` | internal/functions/pre-transaction/speculative_utxo.go:85-96 | A new tree equal to the live one with all leaves appended; the live tree is not modified. |
| `Speculative.CheckNotes` | internal/functions/pre-transaction/speculative_utxo.go:97-112 | Succeeds exactly when every note with an amount above zero has a commitment that the tree has indexed. |
| `Speculative.SpeculativeMerkleTree` | internal/functions/pre-transaction/speculative_utxo.go:62-114 | Modifies no existing tree. Success means every pending commitment parsed, and either all are indexed and the live tree is returned, or none is and a new tree is that continues the live leaves with the pending ones in order; a mixture, or a positive note missing from that tree, is an error. |
| `CircuitPaths.CalcCommitmentsSiblingAndSides` | internal/functions/snarkjs/common.go:186-238 | An error exactly when some note has no commitment, or the tree is incomplete, or a note with a non-zero amount is missing from the tree; otherwise the siblings and sides of every note at its position. |
| `CircuitPaths.CircuitPathFolds` | internal/functions/snarkjs/common.go:190-235 | Each path given for a note stored at its indexed slot folds to the root; a note outside the tree gets 25 zeros for siblings and sides and has no amount. |
| `SnapshotModel.AcceptIsConsistentIff` | internal/data-structures/snapshot/commitments.go:204-236 | Accepting, also over an occupied index, returns true exactly when the leaf changed, and keeps map keys equal to leaves, outputs duplicate-free and equal to the map's range exactly when commitment and ciphertext are new among the other leaves. |
| `SnapshotModel.NotNovelBreaks` | internal/data-structures/snapshot/commitments.go:204-236 | With a repeated commitment or ciphertext the consistency of tree, outputs and map is lost. |
| `SnapshotModel.DropFirstKeeps` | internal/data-structures/snapshot/commitments.go:214-222 | Deleting the replaced leaf's output removes that value only and keeps the others in order. |
| `SnapshotModel.InitialIsConsistent` | internal/data-structures/snapshot/commitments.go:37-51 | The empty service is consistent. |
| `SnapshotJson.SnapshotRoundTripIff` | internal/data-structures/snapshot/commitments.go:99-178 | Reading back a written snapshot is the identity, whatever order the map was written in, exactly when the block is positive and the tree has 200 levels and default zero (or the tree is new), and, on EVM chains, no output carries a blob. |
| `SnapshotJson.ReachedStatesRoundTrip` | internal/data-structures/snapshot/solana_commitments.go:104-176 | Every state the EVM or Solana service reaches by accepting events, replaced leaves and repeats included, saved under a positive block, is read back unchanged. |
| `SnapshotJson.ListingRoundTrip` | internal/data-structures/snapshot/commitments.go:108-118 | Any listing of the commitment map reads back as the map. |
| `SnapshotJson.NullifierRoundTrip` | internal/data-structures/snapshot/nullifiers.go:75-101 | Any listing of the nullifier set reads back as the set. |
| `SnapshotJson.SnapshotWritten` | internal/data-structures/snapshot/commitments.go:99-134 | The file has the block, the outputs in order with their signs as "true" or "false" and a blob on Solana only, and every commitment with its ciphertext, by rising commitment on EVM. |
| `SnapshotJson.UnreadableIff` | internal/data-structures/snapshot/commitments.go:136-178 | A file is refused exactly when some sign is no truth value, or it has a positive block and a tree with a number that does not parse. |
| `Replay.AcceptHolds` | internal/data-structures/snapshot/commitments.go:204-236 | One more non-conflicting event keeps the state exactly the events accepted so far. |
| `Replay.ReplayIsNoOp` | internal/data-structures/snapshot/commitments.go:207-211 | Events whose leaves are in place change nothing. |
| `Replay.PageTags` | internal/data-structures/eventservice/snapshot.go:109-131 | A page of whole blocks marks the same transactions as blocked as the whole log does. |
| `Replay.StateAtHolds` | internal/data-structures/eventservice/snapshot.go:109-131 | The one-pass state of a block holds exactly the events up to it: leaves, map and consistency. |
| `ServiceTree.ServiceTreeIsIndexed` | internal/data-structures/snapshot/commitments.go:204-236 | While no leaf is replaced and no commitment repeats, the reverse index of the service's tree is the exact inverse of its leaves. |
| `Replay.DeliveryExtendsPass` | internal/data-structures/eventservice/snapshot.go:109-131 | Any delivered range without a gap takes the one-pass state of a block to that of the further block, however much of it was delivered before. |
| `Replay.RunIsOnePass` | internal/data-structures/eventservice/snapshot.go:109-131 | Any at-least-once, gap-free run of deliveries leaves tree, outputs, map and nullifiers equal to a single pass over the log. |
| `Replay.StateRecordsLog` | internal/data-structures/snapshot/commitments.go:204-236 | Read off the log: the one-pass outputs are, in log order, one for each commitment event up to the block, with its ciphertext, positive exactly when the index is not negative (EVM) or the prefix is absent (Solana), blocked exactly when the log has a blocking event of its transaction, the blob on Solana only; leaves, map and nullifiers are those of the events and no others. |
| `Replay.RunRecordsLog` | internal/data-structures/eventservice/snapshot.go:109-131 | So is the state after any at-least-once, gap-free run of deliveries. |
| `SyncModel.StepHasNoGap` | internal/data-structures/eventservice/emitter.go:176-201 | Every step, successful or failing (load, init, retrieval, listener start, poll), keeps each processor in the one-pass state of a block not before the watermark, the cursor or any retrieval under way. |
| `SyncModel.EveryRunHasNoGap` | internal/data-structures/eventservice/emitter.go:86-125 | So does every interleaving of any length, although the watermark starts at the minimum of two snapshots and may move back. |
| `SyncModel.NothingIsSkipped` | internal/data-structures/eventservice/client.go:24-52 | After every run each logged event below the watermark or the poll cursor has been taken by its processor. |
| `SyncModel.RetrieveHasNoGap` | internal/data-structures/eventservice/emitter.go:176-201 | A retrieval from a block read before the lock was held leaves no gap, also when saving fails and the watermark stays. |
| `SyncModel.PollHasNoGap` | internal/data-structures/eventservice/client.go:24-52 | A poll tick leaves no gap, also when an empty answer moves the cursor unprocessed or saving fails. |
| `SyncModel.WatermarkKeepsUp` | internal/data-structures/eventservice/emitter.go:176-201 | Progress: in every run whose fetches and saves work out and whose answers never go back, the watermark is no lower than any block answered, and the next retrieval or the listener starts no earlier. |
| `SyncModel.PollMovesCursor` | internal/data-structures/eventservice/client.go:24-52 | A poll that works out takes the cursor past its answer, and the watermark with it when the answer reaches the cursor. |
| `SyncModel.LoadsStartAtMinimum` | internal/data-structures/eventservice/shared.go:29-43 | In either order the two loads leave the watermark at the lower of their blocks. |
| `WatermarkThreads.AdvancesLeaveMaximum` | internal/data-structures/eventservice/shared.go:17-27 | Every finished interleaving of concurrent advances, access by access, leaves the maximum of the old value and all arguments. |
| `WatermarkThreads.LaterSyncsLeaveMinimum` | internal/data-structures/eventservice/shared.go:29-43 | Once a first sync has been stored, every finished interleaving of further syncs leaves the minimum. |
| `WatermarkThreads.FirstSyncsLeaveMinimumIff` | internal/data-structures/eventservice/shared.go:29-43 | From an unsynced start, any number of concurrent syncs is sure to leave the minimum, in every finished interleaving, exactly when all arguments are equal. |
| `WatermarkThreads.OverlappingFirstSyncLosesMinimum` | internal/data-structures/eventservice/shared.go:29-43 | Of any two callers with different arguments the lower one can be lost, from every start value and with any other callers around. |
| `WatermarkThreads.MixedCallsStayWithin` | internal/data-structures/eventservice/shared.go:13-43 | Any interleaving of advances and syncs, finished or not, stays between bounds kept by the start value, the advances' arguments from above and the syncs' from below. |
| `Services.CommitmentsService.AcceptEvent` | internal/data-structures/snapshot/commitments.go:204-236 | Tree, output list and map after one event as the value model says; accepted exactly when its slot does not hold its commitment already; a new ciphertext is listed last with the blocked flag as given, the sign of the index and no blob on EVM, the missing prefix and the blob on Solana. |
| `Services.CommitmentsService.ProcessEventsPage` | internal/data-structures/eventservice/snapshot.go:109-131 | The page's events are all accepted even when saving fails; the count is how many changed the state, and the saved block moves exactly when a save is due. |
| `Services.SuccessfulRunIsStored` | internal/data-structures/eventservice/snapshot.go:85-107 | As long as every delivery succeeds, the snapshot in storage lacks no accepted event and its block lags the emitter by at most the save depth. |
| `Services.SuccessMeansStoredIff` | internal/data-structures/eventservice/snapshot.go:98-107 | A successful delivery leaves nothing unsaved exactly when nothing was unsaved before or a save was due. |
| `Services.FailedSaveIsNotRetried` | internal/data-structures/eventservice/snapshot.go:85-107 | The block is noted before the write: after a failed write all quiet deliveries within the depth succeed, and what was not saved stays unsaved. |
| `Services.NullifierService.AcceptEvent` | internal/data-structures/snapshot/nullifiers.go:115-121 | The set grows by the nullifier; true exactly when it was new. |
| `Services.NullifierService.ProcessEventsPage` | internal/data-structures/eventservice/snapshot.go:109-131 | The set grows by exactly the page's nullifiers and the count is how many were new. |
| `Services.DeliveryCountsNewEvents` | internal/data-structures/eventservice/snapshot.go:109-131 | A gap-free delivery counts exactly the commitment events after the block reached before, however many it repeats. |
| `Services.CollectBlocked` | internal/data-structures/eventservice/snapshot.go:110-115 | Exactly the transactions of the page's blocking events. |
| `Emitter.BlockchainEventEmitter.constructor` | internal/data-structures/eventservice/emitter.go:46-72 | A new emitter with its two services is the step system's start state. |
| `Emitter.BlockchainEventEmitter.AdvanceLatestBlockNumber` | internal/data-structures/eventservice/emitter.go:82-84 | The watermark only rises. |
| `Emitter.BlockchainEventEmitter.SyncFromAtMostBlock` | internal/data-structures/eventservice/emitter.go:96-98 | The first call sets the watermark, later ones only lower it. |
| `Emitter.BlockchainEventEmitter.LoadCommitments` | internal/data-structures/eventservice/snapshot.go:70-83 | A successful load replaces the processor's state and syncs the watermark; a failed one changes nothing. |
| `Emitter.BlockchainEventEmitter.LoadNullifiers` | internal/data-structures/eventservice/snapshot.go:70-83 | The same for the nullifiers. |
| `Emitter.BlockchainEventEmitter.ProcessEvents` | internal/data-structures/eventservice/emitter.go:238-262 | Both processors take all events even when one fails to save; the call fails exactly when one of the two saves does, and success means that every change, and every lag beyond the depth, has been written. |
| `Emitter.BlockchainEventEmitter.RetrieveEvents` | internal/data-structures/eventservice/emitter.go:176-201 | A busy emitter ignores the call unless forced; otherwise the state is the step system's retrieval, the lock is released on every path, the error is determined by the node's answers and the two saves, and the watermark becomes the answered block on success and stays otherwise. |
| `Emitter.BlockchainEventEmitter.Init` | internal/data-structures/eventservice/emitter.go:113-125 | Refused once ready; otherwise ready from then on, and the first retrieval starts just past the watermark. |
| `Emitter.BlockchainEventEmitter.ProcessExternalEvents` | internal/data-structures/eventservice/emitter.go:86-94 | Events are processed, and the watermark rises to the block given, never falls, exactly when neither save fails. |
| `Emitter.ClientPoller.Tick` | internal/data-structures/eventservice/client.go:24-52 | One tick is the step system's poll; one that works out moves the cursor past an answer that reaches it, and the watermark with it; any other leaves both. |
| `Paging.PagesPartition` | internal/data-structures/eventservice/emitter.go:264-274 | Pages are contiguous, cover the range exactly and hold at most the limit. |
| `Paging.BuildPages` | internal/data-structures/eventservice/emitter.go:264-274 | Contiguous pages over the range, every page but the last as long as the limit; one page without a limit; none for an empty range. |
| `Paging.Pages64Iff` | internal/data-structures/eventservice/emitter.go:264-274 | On 64-bit numbers the loop ends with the right pages exactly when the number after the last page still fits. |
| `Paging.FetchRangeIsExact` | internal/data-structures/eventservice/emitter.go:203-236 | Against any partially failing node, a successful bisection returns every decodable event of the range once and in order. |
| `Paging.FetchRangeSucceeds` | internal/data-structures/eventservice/emitter.go:203-236 | When all ranges of at most 101 blocks are answered, twenty bisections suffice for every range below 101 * 2^20 blocks. |
| `Paging.GetEventsInRange` | internal/data-structures/eventservice/emitter.go:127-144 | The retrieval runs over a partition of the range, both addresses for each page. |
| `Paging.FetchPagesIsExact` | internal/data-structures/eventservice/emitter.go:127-144 | Over a partition the whole retrieval returns exactly the range's events of both addresses. |
| `Paging.RetrievalIsFaithful` | internal/data-structures/eventservice/emitter.go:127-144 | So what a retrieval hands to the processors is a faithful delivery in the sense the step system assumes. |
| `OwnedNotes.ScanCompletes` | internal/functions/balance/input_utxos.go:55-106 | Scanning from where the cache stopped completes it to the owned part of the whole list. |
| `OwnedNotes.CallAnswersRescan` | internal/functions/balance/input_utxos.go:108-185 | A call on a cache that covers a prefix answers as a full rescan and leaves a covered prefix, whether it succeeds, fails, resets or only reads. |
| `OwnedNotes.EveryCallAnswersRescan` | internal/functions/balance/input_utxos.go:55-185 | In every run over a list that only grows, each successful scanning call (warm, cold, reset or without a cache) returns what a full rescan, decoding and unspent filter would. |
| `OwnedNotes.EveryCallListsUnspent` | internal/functions/balance/input_utxos.go:108-185 | In every such run a note is returned exactly when some listed output decodes to it, it is of the wanted kind, its nullifier is computed and not in the call's set, and its point is not (0, 1); in the order of the list. |
| `OwnedNotes.NullifierRemovesItsNotes` | internal/functions/balance/input_utxos.go:254-267 | One more nullifier in the set removes exactly the notes that carry it from the answer, and changes nothing else. |
| `OwnedNotes.RunSees` | internal/functions/balance/input_utxos.go:55-185 | In every run of scanning calls, whatever happens to the list, the cache holds the owned part of everything scanned: after each call what follows the last scanned output, or nothing new once that output is gone. |
| `OwnedNotes.ScanAnswersRescanIff` | internal/functions/balance/input_utxos.go:108-185 | When a cache meets any new list, its calls answer as full rescans for every user and all options exactly when the scanned unblocked and blocked outputs are those of the new list up to the last scanned one, or of all of it when that one is gone. |
| `OwnedNotes.GoneOutputFreezesCache` | internal/functions/balance/input_utxos.go:152-167 | Once the last scanned output leaves the list, every scanning call answers from what was scanned before and scans nothing. |
| `OwnedNotes.SameRescanIff` | internal/functions/balance/input_utxos.go:187-200 | Two lists give the same notes to every user and every call exactly when their unblocked and their blocked outputs agree. |
| `OwnedNotes.OwnedSuffice` | internal/functions/balance/input_utxos.go:187-200 | Decoding the owned outputs gives the same notes as decoding all. |
| `OwnedNotes.NoteScanner.GetInputUtxoAndBalance` | internal/functions/balance/input_utxos.go:108-185 | The object's cache and answer after a call, with every early return, as the value model says; on a cache that covers part of the list a successful scan returns, in list order, one note for each output that decodes to an unspent note of the wanted kind. |
| `OwnedNotes.FilterSpentUtxos` | internal/functions/balance/input_utxos.go:254-267 | In order, exactly the notes of the wanted kind whose nullifier is computed and not in the set and whose point is not (0, 1). |
| `OwnedNotes.FilterOwnedOutputs` | internal/functions/balance/input_utxos.go:202-252 | Chunked flagging and gathering gives the outputs that decode, in order, for any number of workers. |
| `OwnedNotes.FlagRange` | internal/functions/balance/input_utxos.go:219-241 | A worker writes the flags of its own range and no other. |
| `OwnedNotes.AnyInterleavingFlagsAll` | internal/functions/balance/input_utxos.go:215-243 | However the workers interleave, once each has passed its chunk the flags are those of one sequential pass. |
| `Padding.SortDescendingSorts` | internal/functions/balance/input_utxos_per_token.go:110-113 | Sorting permutes the notes, descending, and keeps the order of equal amounts. |
| `Padding.TopIsBest` | internal/functions/balance/add_padding_to_utxos.go:98-140 | The first m notes of a descending row are worth at least any m of its notes. |
| `Padding.SortAndPadUtxos` | internal/functions/balance/input_utxos_per_token.go:99-133 | Sorted and padded with zero notes to two, or from three to six. |
| `Padding.SortedRowTotal` | internal/functions/balance/input_utxos_per_token.go:99-133 | Padding keeps the total and the order. |
| `Padding.GetInputUtxoAndBalancePerToken` | internal/functions/balance/input_utxos_per_token.go:51-97 | One group for each token wanted or held. A group is, as a multiset, exactly the wallet's notes whose token is that one up to case (on Solana, whose mint is that text), by falling amount, then zero notes up to two or six; its total is the sum of those amounts; every note with an address is in exactly one group. |
| `Padding.AddPaddingToUtxos` | internal/functions/balance/add_padding_to_utxos.go:50-152 | On success a rectangle of width two or the maximum: forced and on-chain rows are zero notes, and every other row is notes of its token worth at least any choice of that many of the wallet's. An error exactly when some token has more than two notes and some token's padded notes do not fit and no choice of so many covers the spend (or, if only one slot is allowed, an on-chain token is to spend). |
| `Padding.FittedRowsAreBest` | internal/functions/balance/add_padding_to_utxos.go:98-152 | Rows fitted to the width are best rows for the wallet's notes of their tokens, and a limit error means that no choice covers. |
| `Utxos.EqualFoldIff` | internal/functions/balance/input_utxos_per_token.go:15-20 | Addresses with one lower-case form are exactly those that agree letter by letter up to case. |
| `Padding.FitRowIsBest` | internal/functions/balance/add_padding_to_utxos.go:98-152 | Padding keeps a row's total; a cut row is worth exactly the most any choice of that many of the token's notes can give. |
| `Padding.OverLimitIffCannotCover` | internal/functions/balance/add_padding_to_utxos.go:112-140 | The limit error means exactly that the row is over-long and no choice of the maximum number of notes covers the spend. |
| `Outputs.OutputConservesIff` | internal/functions/pre-transaction/output_utxo_processing.go:63-132 | When the step fails, and that on success outputs minus inputs is the requested change plus the recipient's amount exactly when the change does not overdraw the inputs. |
| `Outputs.RecipientReadIff` | internal/functions/pre-transaction/output_utxo_processing.go:102-131 | A text is read as a recipient exactly when it has at least six comma-free parts joined by commas whose first is the address, second and third the coordinates and sixth the key. |
| `Outputs.BuildOutputUtxos` | internal/functions/pre-transaction/output_utxo_processing.go:27-53 | Fails exactly when a change overdraws its inputs or a recipient text cannot be read. Each row is the caller's change note and, with a recipient, a note of the given amount made out to the address, point and key its text names, both of the inputs' own token and mint; out minus in is the change plus that amount. |
| `Outputs.CalcAmountChanges` | internal/functions/snarkjs/common.go:120-140 | Outputs minus inputs per row, a missing output row counting as nothing; a negative difference is shifted by the field order unless it is for the circuit data. |
| `Outputs.AcceptedIffSameOrOneTurn` | internal/functions/pre-transaction/ensure_amount_changes.go:12-27 | For all magnitudes: acceptance means each change is the difference or one field order away from it. |
| `Outputs.AcceptedIffConserves` | internal/functions/pre-transaction/ensure_amount_changes.go:12-27 | Below half the field order the check accepts exactly the conserving rows. |
| `Outputs.RecipientUtxoProcessing` | internal/functions/pre-transaction/recipient_utxo_processing.go:15-83 | In place: the first row with a note of the token, spelled in any case, gets the recipient's note and its change grows by the amount; every other row gets a zero note of its own token to the same recipient. Fails, changing nothing, exactly when the text cannot be read or no row has the token. |
| `Outputs.RecipientSlotConserves` | internal/functions/pre-transaction/recipient_utxo_processing.go:63-82 | Adding the slot keeps conserving rows conserving and others not. |
| `Outputs.RecipientSlotKeepsAcceptance` | internal/functions/pre-transaction/recipient_utxo_processing.go:63-82 | And keeps the check's verdict. |
| `Enclave.VerifyComputeInNullifiers` | internal/functions/enclave/construct_tx_enclave_verify.go:280-361 | On success one entry for every slot of the response: a zero for amount zero, else the nullifier of the note of the request's token and keys with the slot's amount, point and time stamp. With an authorised list, all of it is among the commitments of those notes, which are no more than it has entries. |
| `Enclave.DistinctIffSetSize` | internal/functions/enclave/construct_tx_enclave_verify.go:344-359 | A list has as many members as entries exactly when its entries are distinct. |
| `Enclave.SpendSetIsAuthorisedIff` | internal/functions/enclave/construct_tx_enclave_verify.go:344-359 | An accepted spend set equals the authorised one exactly when the authorised commitments are distinct. |
| `EnclaveAmounts.VerifyComputeOutCommitments` | internal/functions/enclave/construct_tx_enclave_verify.go:377-464 | On success, row by row, the caller's own slots as the response gives them, then for each recipient the commitment of a note made out to the stealth address and point its text names, with the amount of the request and the output time stamp; a zero for amount zero. |
| `Text.SplitIsPieces` | internal/functions/enclave/construct_tx_enclave_verify.go:434-437 | Splitting at a character gives the one list of pieces without it that joins to the text. |
| `EnclaveAmounts.VerifyAssertAmountsConserve` | internal/functions/enclave/construct_tx_enclave_verify.go:466-520 | Accepts exactly when shapes fit, the requested own amounts are echoed, and inputs plus change equal own outputs for every token. |
| `EnclaveAmounts.VerifyComputeAmountChangesSigned` | internal/functions/enclave/construct_tx_enclave_verify.go:522-540 | The signed change of each token: own change plus everything recipients get. |
| `EnclaveAmounts.TotalInIsText` | internal/functions/enclave/construct_tx_enclave_verify.go:488-497 | The amounts summed by the balance check are the amounts behind the input notes. |
| `EnclaveAmounts.TotalOutIsText` | internal/functions/enclave/construct_tx_enclave_verify.go:498-512 | Own amounts summed by the balance check plus recipient amounts are the amounts behind the output notes. |
| `PrepareTx.CollectSpeculative` | internal/functions/enclave/construct_tx_enclave_verify.go:237-277 | In order, the commitment of each speculative note of non-zero amount, made out to its stealth address; fails when one cannot be computed. |
| `PrepareTx.FlatToBigInts` | internal/functions/enclave/construct_tx_enclave_verify.go:96-108 | The number of text i of row t stands at its offset in the flat list; fails exactly when some text is no number. |
| `PrepareTx.AuthorisedInputs` | internal/functions/enclave/construct_tx_enclave_verify.go:959-973 | What may be spent: the explicit list; without one, the commitments of the speculative notes; with neither, nothing when empty notes are forced, and otherwise anything. |
| `SignCheck.VerifyPrepareTxResponse` | internal/functions/enclave/construct_tx_enclave_verify.go:959-994 | Accepts exactly when every check passes. Then the stealth pair is the caller's, what is spent is what was allowed, the own outputs requested are echoed, and the answered hash is the hash of one list of numbers: the nullifiers of the response's slots under the caller's keys, the commitments of own and recipient slots, and the changes; every opening of which balances for every token or shows a collision. |
| `SignCheck.OtherHashIsRefused` | internal/functions/enclave/construct_tx_enclave_verify.go:946-955 | An accepted response with its hash text replaced by any other number, or by no number, is refused. |
| `SignCheck.OpeningsBalance` | internal/functions/enclave/construct_tx_enclave_verify.go:893-994 | Every opening of the hashed data balances or shows two notes of different content with one hash. |
| `SignedBalance.AcceptedBalances` | internal/functions/enclave/construct_tx_enclave_verify.go:466-540 | Accepted: for every token, amounts behind the output commitments minus amounts behind the inputs equal the signed change, for any number of own slots and recipients. |
| `SignedBalance.OneOpening` | internal/functions/enclave/construct_tx_enclave_verify.go:893-957 | An opening of the hashed numbers has, slot by slot, the amount and token of the notes they were computed from, as field elements, or shows a collision with one of them. |
| `SignedBalance.SlotNotesBalance` | internal/functions/enclave/construct_tx_enclave_verify.go:466-540 | Accepted: the notes behind all slots balance exactly for every token number, however its address is spelled and repeated. |
| `SignedBalance.SignedHashBalances` | internal/functions/enclave/construct_tx_enclave_verify.go:893-994 | The answered hash is the hash of the recomputed data; and however its nullifiers and commitments are opened, created notes exceed spent ones, for every token number, by the changes signed for it (modulo the field order, and exactly for amounts within it), or an opened note collides with the one behind its slot. |
| `NoteHashes.CommitmentCollision` | internal/data-structures/utxo/utxo.go:159-185 | With the repository's commitment, notes of different amount or token with one hash are two different Poseidon inputs with one output, or an output of zero. |
| `NoteHashes.NullifierCollision` | internal/data-structures/utxo/utxo.go:188-217 | The same for the nullifier, through the commitment inside it. |
| `NoteHashes.OpenedHashBalancesOrPoseidonBreaks` | internal/data-structures/utxo/utxo.go:159-217 | With the repository's own hashes an accepted exchange balances for every token however its signed hash is opened, or some slot shows inputs on which Poseidon collides or gives zero. |
| `NoteHashes.SameAddressSameCommitment` | internal/data-structures/utxo/utxo.go:221-237 | An own note and the note given by its stealth address have one commitment, so a speculative list can authorise own notes. |
| `NoteHashes.SameCommitmentIff` | internal/data-structures/utxo/utxo.go:159-185 | Unless Poseidon collides on them, two notes have one commitment exactly when amount, token, stealth address and time stamp agree as field elements. |
| `NoteHashes.SameNullifierIff` | internal/data-structures/utxo/utxo.go:188-217 | Unless Poseidon collides on them, two own notes have one nullifier exactly when they agree and their nullifying keys do. |
| `NoteHashes.ZeroEntryIff` | internal/functions/enclave/construct_tx_enclave_verify.go:363-375 | An output entry is a zero exactly when its amount is zero. |
| `SignedBalance.AcceptedSpendsAuthorised` | internal/functions/enclave/construct_tx_enclave_verify.go:344-359 | Accepted: the notes spent are exactly the authorised ones when these are distinct, and only then. |
| `SignedBalance.EachSpentOnceIff` | internal/functions/enclave/construct_tx_enclave_verify.go:344-359 | Each note is spent once exactly when there are as many held slots as authorised commitments. |
| `HonestExchange.HonestExchangeIsAccepted` | internal/functions/enclave/construct_tx_enclave_verify.go:959-994 | With a stealth pair of the caller's such a response is accepted. |
| `HonestExchange.HonestExchangeIsChecked` | internal/functions/enclave/construct_tx_enclave_verify.go:959-994 | The checks are not too strict: for any request and any exchange that fits it, with any number of tokens, slots and recipients, and recipients' notes made out to the addresses and points their texts name, the response that reports it passes once the spend set matches and the answered hash is that of its data. |
| `HonestExchange.OneNoteInTwoSlotsIsAccepted` | internal/functions/enclave/construct_tx_enclave_verify.go:344-359 | The set comparison lets one authorised note be spent in two slots: the response is accepted and counts its amount twice. |
| `SignedBalance.ForcedEmptySpendsNothing` | internal/functions/enclave/construct_tx_enclave_verify.go:970-973 | Accepted with empty notes forced and nothing else authorised: every input slot is empty. |
| `StuckWithdraw.SpentNullifiers.VerifyNoRepeatedStuckNotes` | internal/functions/enclave/construct_tx_enclave_verify.go:1004-1015 | Succeeds exactly when no non-zero nullifier of the row is in the shared set or twice in the row, and adds them. |
| `StuckWithdraw.SpentNullifiers.VerifyStuckWithdrawJob` | internal/functions/enclave/construct_tx_enclave_verify.go:1019-1139 | Accepts exactly the sound jobs that repeat nothing spent before. The answered hash of an accepted one is that of its slots' nullifiers under the caller's keys, one zero commitment and one change, minus the notes' whole value, which exceeds the fee; every opening of it balances or collides. |
| `StuckWithdraw.JobEmptiesItsNotes` | internal/functions/enclave/construct_tx_enclave_verify.go:996-1060 | A sound job spends notes worth more than the fee, creates no note of its own, and signs away their whole value. |
| `StuckWithdraw.VerifyStuckWithdrawJobs` | internal/functions/enclave/construct_tx_enclave.go:262-267 | Accepts exactly the answers whose jobs are all sound and in which no note, by the nullifier of the slot's own texts, is spent in two slots of one job or of different ones. |
| `StuckWithdraw.RepeatedIffSpentTwice` | internal/functions/enclave/construct_tx_enclave_verify.go:1004-1015 | The nullifiers of sound jobs repeat exactly when a note is spent in two slots. |
| `StuckWithdraw.HonestJobIsSound` | internal/functions/enclave/construct_tx_enclave_verify.go:996-1139 | Any job that spends notes of the token worth more than the fee and creates nothing is sound once the answered hash is that of its data. |
| `Fees.WithdrawalFits` | internal/functions/fees/fees.go:195-205 | For rates up to 100 percent and inputs of at least the flat fee, amount plus flat fee plus floored variable fee never exceeds the input, falls short by at most 2, and no amount larger by more than one fits. |
| `Fees.WithdrawalBelowFlatFee` | internal/functions/fees/fees.go:195-205 | Below the flat fee the amount is not positive and amount plus fee is at least the input. |
| `Fees.GrossUpIsLeast` | internal/functions/fees/fees.go:226-234 | For 0 < rate < 10000 the gross-up is the least g with (net+g)(10000-rate) >= 10000 net; the recipient gets net or net+1 after the floored cut, and never more than net for less. |
| `Fees.GrossAmountIsLeast` | internal/functions/fees/fees.go:207-215 | The gross amount is the least whose kept share covers net plus flat fee, with at most one unit over. |
| `Fees.UtxoAmountWithinGross` | internal/functions/fees/fees.go:236-247 | Grossing up the variable part and adding the flat fee never costs more than grossing up their sum. |
| `Fees.CalculateGrossUtxoAmounts` | internal/functions/fees/fees.go:236-247 | Each recipient's amount, less the flat fee, is the least whose kept share covers the net amount, and is the net amount itself without a positive rate or amount; the sum is that of the array, and each is within its gross amount. |
| `Fees.ClaimSplitsExactly` | internal/functions/transactions/claim_utxo.go:41-66 | The fee is all in the flat part, of the note's token; fee and recipient's amount add up to the note; the recipient's share is the kept part rounded up, at 25 basis points when no positive rate is given; and it fails exactly for a note within the flat fee or a rate of at least 10000. |
| `SealedKeys.EncryptSealedKeys` | internal/data-structures/crypto-keys/ecdh.go:59-82 | Count byte, nonce, sealed keys in order and sealed message, or failure when a seal fails. |
| `SealedKeys.DecryptSealedKeys` | internal/data-structures/crypto-keys/ecdh.go:26-57 | The offsets select nonce, the recipient's key and the message, with each error in its order. |
| `SealedKeys.UnpackPacked` | internal/data-structures/crypto-keys/ecdh.go:26-82 | What unpacking a packed text gives for any number of recipients: past 255 the count wraps and left-over keys stand in front of the message. |
| `SealedKeys.SealedKeysRoundTripIff` | internal/data-structures/crypto-keys/ecdh.go:26-82 | Every recipient at every index reads the message exactly when there are at most 255 recipients. |
| `HexFields.SplitHexParts` | internal/functions/balance/decrypt.go:234-243 | The pieces between 0x separators, without the empty ones. |
| `HexFields.FieldsRecoveredIff` | internal/functions/balance/decrypt.go:234-243 | Joined non-empty fields are cut apart again exactly when none of them contains the separator. |
| `HexFields.NoteText` | internal/data-structures/utxo/encrypt.go:55-97 | Amount, token, stealth address, time stamp, both coordinates, encryption key and, if there is one, the mint's bytes, each with its prefix, in this order; failure exactly on an unreadable time stamp or mint. |
| `HexFields.NoteRestored` | internal/functions/balance/decrypt.go:34-77 | Reading a written note restores amount, token, time stamp, H0 and stealth address, and the mint exactly when it has 32 bytes. |
| `HexFields.CutNoteIsRefused` | internal/functions/balance/decrypt.go:37-41 | The written text cut off after fewer than seven fields is no note. |
| `HexFields.PrefixKeepsNumberIff` | internal/data-structures/utxo/encrypt.go:17-22 | Adding the missing prefix to an address makes it another number, unless the address is a single decimal digit after leading zeros. |
| `HexFields.SealedNoteRestored` | internal/functions/balance/decrypt.go:22-77 | The same through encryption and decryption with the owner as first recipient. |
| `HexFields.HexBytesRoundTrip` | internal/data-structures/utxo/encrypt.go:86-92 | Bytes written as hexadecimal read back. |
| `Numbers.ToBeHexRoundTripIff` | internal/functions/utils/bigint.go:32-41 | The even-length hexadecimal text reads back exactly for non-negative numbers and negative ones with an odd number of digits. |
| `Numbers.DecimalRoundTrip` | internal/functions/utils/bigint.go:10-22 | Decimal text of any sign reads back. |
| `SolanaLogs.ParseProgramLogs` | internal/data-structures/solana/events.go:110-143 | The loop over the lines, with its stack, is the run of one step per line. |
| `SolanaLogs.PrintedTraceIsRead` | internal/data-structures/solana/events.go:110-143 | Reading the lines of any well-nested call tree finds, in order, exactly the decodable data emitted by frames whose innermost program is the wanted one, and leaves the stack as it was. |
| `SolanaLogs.LogMessagesAreIgnored` | internal/data-structures/solana/events.go:106-143 | Whatever a program prints as a log message is ignored: it cannot pass for a call or for data. |
| `SolanaLogs.ProgramLineReads` | internal/data-structures/solana/events.go:125-139 | A line about a program is read as entering, leaving or nothing, and never as data. |
| `SolanaLogs.CommitmentDecodesIff` | internal/data-structures/solana/events.go:52-79 | A commitment event is decoded from exactly the bytes that start with its fields and length. |
| `SolanaLogs.DecodesIff` | internal/data-structures/solana/events.go:33-89 | Data decodes to an event exactly when it starts with that event's encoding. |
| `Handshake.StepHolds` | internal/functions/enclave/handshake_service.go:34-73 | Every critical section, by any caller, keeps the invariant of callers, calls and cached key. |
| `Handshake.OneFetchAtATime` | internal/functions/enclave/handshake_service.go:34-54 | In no interleaving are two fetches in flight. |
| `Handshake.WaiterSharesOutcome` | internal/functions/enclave/handshake_service.go:40-66 | A caller that waited returns what the caller that fetched for it returned. |
| `Handshake.CacheHitIsFresh` | internal/functions/enclave/handshake_service.go:36-60 | A call served from the cache gets a key that the caller who fetched it released in an earlier step, less than the time to live before. |
| `Handshake.FreshKeyIsServed` | internal/functions/enclave/handshake_service.go:36-60 | A released key is served, without another fetch, to every caller that asks within the time to live, until the next key is released or the cache is invalidated; a failing fetch does not disturb it. |
| `Handshake.NoWaiterStranded` | internal/functions/enclave/handshake_service.go:40-66 | A waiter can always wake up, or the leader of its call can move. |
| `Handshake.NothingCachedUntilReleased` | internal/functions/enclave/handshake_service.go:68-73 | After invalidation nothing is cached until a fetch is released. |
| `Handshake.InvalidationIsFinalIff` | internal/functions/enclave/handshake_service.go:54-73 | In every reachable state, no continuation after an invalidation caches a key of an earlier call exactly when no fetch is in flight, or the one in flight has already failed. |
| `Handshake.OldFetchReturns` | internal/functions/enclave/handshake_service.go:54-73 | Any other fetch in flight can fill the cache after the invalidation, in at most two steps. |
| `Handshake.ServedKeysAreNewer` | internal/functions/enclave/handshake_service.go:34-73 | With nothing to cache at the invalidation, every key served from the cache afterwards comes from a later call. |
| `Handshake.EnclaveHandshakeService.constructor` | internal/functions/enclave/handshake_service.go:27-32 | Nothing cached; a non-positive time to live is replaced by the default. |
| `Handshake.EnclaveHandshakeService.BeginGetPublicKey` | internal/functions/enclave/handshake_service.go:34-50 | The first critical section: hit, join or lead. |
| `Handshake.EnclaveHandshakeService.EndFetch` | internal/functions/enclave/handshake_service.go:54-60 | The second: cache on success, and clear the call in flight in any case. |
| `Handshake.EnclaveHandshakeService.Invalidate` | internal/functions/enclave/handshake_service.go:68-73 | The cached key is forgotten, the call in flight is not. |

## Left out

- OwnedNotes.FilterOwnedOutputs: the method runs the workers' chunks one after the other; that every interleaving gives the same flags is `OwnedNotes.AnyInterleavingFlagsAll`.
- Paging.BuildPages: the method works on unbounded block numbers; when 64-bit numbers give the same pages is `Paging.Pages64Iff`.
- Paging.FetchRangeIsExact: does not model the wrap-around of the sum from which 64-bit midpoints are computed.
- Paging.GetEventsInRange: the two addresses of a page are asked one after the other; log decoding is a function of the log.
- Padding.SortAndPadUtxos: the in-place stable library sort is a function that is proved to be a stable descending sort; the variant that cuts rows to six, the filter by a token list, and the address fields of padding notes (on Solana derived from the mint, which can fail) are not modelled.
- Padding.GetInputUtxoAndBalancePerToken: lower case is that of ASCII letters.
- MerkleJson.FullRoundTripIff: keys and values are the integers they print, so malformed decimal text only appears as unreadable text.
- Numbers.DecimalRoundTrip: white space outside Latin-1 is not trimmed.
- Services.CommitmentsService.ProcessEventsPage: fetching and writing the snapshot is one success flag; the order of the file's fields is not modelled.
- SyncModel.EveryRunHasNoGap: loads happen before initialisation and the listener starts once after it, as the client calls them; a chain reorganisation, the depth that guards against it and the server's own polling loop are not modelled.
- SignCheck.VerifyPrepareTxResponse: the calldata hash, the ABI packing, the message seed, the fee structure and the slippage values are inside one hash parameter that may fail; the stealth-pair check is another. Both read the whole exchange except the answered hash.
- PrepareTx.AuthorisedInputs: the request builder turns an empty list of commitments into no list before this point (internal/functions/enclave/construct_tx_enclave.go:88-93), so only the forced-empty flag authorises spending nothing.
- StuckWithdraw.VerifyStuckWithdrawJobs: the echo comparison of the request and the signature of the response are not modelled.
- HexFields.SealedNoteRestored: deriving the encryption key pair and building the note object from the fields read are not modelled.
- NoteHashes.OpenedHashBalancesOrPoseidonBreaks: commitments and nullifiers cached in a note object are not modelled; the checks build fresh notes.
- SolanaLogs.PrintedTraceIsRead: base64 and events found in inner instructions are not modelled; logs cut off by the runtime are not well-nested.
- Handshake.NoWaiterStranded: a fetch that panics, and waiting on a cancelled context, are not modelled.
- The Solana forms of the prepared-transaction checks (internal/functions/enclave/construct_tx_enclave_verify.go:1151-1540): other hash contents around the same balance and spend-set checks.
- The Solana emitter: it skips failed fetches silently, so the no-gap property is not its own.
- Stuck and on-chain note decoding (ABI, fixed words), fee structures priced across tokens with floating point, transaction flows, providers, signers, HTTP, RPC and rate limits.
- Poseidon, keccak, the curve, EdDSA and the boxes themselves, and the search for a usable randomisation.
