# Paranoid Zero: verified cores

Dafny models of the parts of this node whose correctness rests on an argument rather than on reading one function, with proofs that hold for every input, every sequence of operations and every interleaving. Hash functions, proof verifiers, compression and storage are parameters everywhere. No proof assumes collision resistance: where a commitment binds something, the contract says that the two openings are equal, or names the place at which the inputs they hash collide.

What is modelled:

- **Exact state.** The heap-shaped Merkle tree of a segment, its in-place update with early exit, its read-only overlay and its interior reads; the byte-budgeted recency cache around it; copy-on-write sharing between cloned caches; the segmented slot state that owns the cache, with batch writes, eviction, expansion and shrinking; the sparse Merkle cache and its canonical multiproofs.
- **The chain's state root.** The streaming root builder, the two-level hierarchy of segment roots, and the chain state on top: refreshing what changed, growing and rolling back with the hierarchy in step, behind or ahead, predicting the root of a batch before applying it, applying a verified batch, reading proof frontiers without a node map, and the circulating supply.
- **Headers, hashing and receipts.** The sponge that all of it feeds, fed in chunks of any size; the header wire form and both identity schedules; the 256-leaf transaction tree; the portable contract receipt, its two wire layouts and its hash-linked ancestry.
- **Witness preparation.** Aligning openings with marked transactions, handing authorizations to the authority a deadline selects, resource limits, and matching owner capsules to trade policies.
- **Proof arithmetic.** The multilinear evaluator, and the multilinear sumcheck of the zerocheck: equality table, folds, round messages, the prover with its packed first pass and fused kernel, the verifier, completeness, and soundness as a count of challenge sequences.
- **Release and benchmarks.** The prechecked-matrix replay, the two-entry matrix cache, the release archive writer and reader, and the parallel nonce partition.

Layout: a module that ends in `Object`, and `ChainState`, `StaleRecord`, `StateRoots`, `StreamingRoot`, `SumcheckProver` and `PackedFold`, hold the classes and loops in the form the source gives them; each is proved against functions, and the functions carry the theorems. `Powers`, `Wire`, `Wrappers`, `BinaryTree` and `Algebra` are shared vocabulary; the `State` modules carry `ChainState`. Automatic induction is switched off on every lemma, so each induction is written out.

Check the whole project with `dafny verify dfyconfig.toml`.

## Model

| member | source | states |
|---|---|---|
| ExactStateHash.ZeroSlotRoots | noid_chain/src/exact_state_hash.rs:37-45 | the table holds at every level the root of an all-empty subtree of that depth |
| ExactStateHash.EmptySlotsRoot | noid_chain/src/exact_state_hash.rs:37-45 | plainly hashing a tree of empty slots gives the table entry of its depth |
| ExactStateHash.RootOfHalves | noid_chain/src/exact_state_hash.rs:18-45 | one slot is its leaf hash, twice as many slots hash the left half before the right one, and the empty slot is three zero lanes |
| SegmentTree.SetSlotIsRebuild | noid_chain/src/exact_segment_cache.rs:87-114 | for every depth, slot and value, the whole node array after an in-place update equals a fresh build on the edited slots |
| SegmentTree.ClimbRestores | noid_chain/src/exact_segment_cache.rs:95-113 | stopping at the first unchanged ancestor is sound: one inconsistent parent is repaired and nothing else was wrong |
| SegmentTree.OverlayIsSlotsRoot | noid_chain/src/exact_segment_cache.rs:118-154 | the overlay over a sorted batch is the plain root of the updated slots although it never uses the empty-subtree shortcut |
| SegmentTree.OverlayMatchesAnyWriteOrder | noid_chain/src/exact_segment_cache.rs:118-154 | the overlay root equals both a fresh build on the updated slots and the root after applying the same updates one by one in any order, repeats included |
| SegmentTree.SubtreeRootIsSliceRoot | noid_chain/src/exact_segment_cache.rs:76-85 | an interior read answers exactly when the aligned range lies inside the segment, with the root of a tree built on that slice alone |
| SegmentTree.LocalRulesGiveNodes | noid_chain/src/exact_segment_cache.rs:35-56 | leaf hashes plus one local rule per parent determine the whole node array |
| SegmentTreeObject.ExactSegmentTree.constructor | noid_chain/src/exact_segment_cache.rs:28-66 | building from columns yields a tree whose leaf i is the hash of value, high owner and low owner i of the three columns, which commits to exactly those slots, with the resident size in bytes |
| SegmentTreeObject.ColumnsAreLeaves | noid_chain/src/exact_segment_cache.rs:35-44 | the node at `2^log + i` of the tree over three columns is the leaf hash of their i-th entries in that order |
| SegmentTreeObject.FillLeaves | noid_chain/src/exact_segment_cache.rs:35-44 | the leaf half of the array holds the leaf hashes, empty slots by shortcut, the rest is untouched |
| SegmentTreeObject.FillLevel | noid_chain/src/exact_segment_cache.rs:45-56 | one level is filled so that every parent obeys the local rule and no other entry changes |
| SegmentTreeObject.FillLevels | noid_chain/src/exact_segment_cache.rs:45-56 | every parent obeys the local rule and the leaves are untouched |
| SegmentTreeObject.ExactSegmentTree.Root | noid_chain/src/exact_segment_cache.rs:68-70 | the root is the plain Merkle root of whatever slots the tree commits to |
| SegmentTreeObject.ExactSegmentTree.SetSlot | noid_chain/src/exact_segment_cache.rs:87-114 | the in-place loop computes exactly the specified new tree |
| SegmentTreeObject.SetSlotCommits | noid_chain/src/exact_segment_cache.rs:87-114 | a tree that commits to some slots commits to the edited slots after the update |
| SegmentCache.EvictLongestSuffix | noid_chain/src/exact_segment_cache.rs:203-206 | eviction aborts exactly when even an empty list leaves no room, and otherwise keeps the longest recent suffix that fits |
| SegmentCache.InsertOutcome | noid_chain/src/exact_segment_cache.rs:196-208 | a tree over budget only displaces its own old entry; an insertion aborts exactly when lost bytes leave no room; otherwise exactly the longest recent suffix that fits stays beside the new tree |
| SegmentCache.RemoveKeepsValid | noid_chain/src/exact_segment_cache.rs:189-194 | removal takes out that id only and keeps ids unique and bytes accounted |
| CacheRuns.UpdateKeepsValid | noid_chain/src/exact_segment_cache.rs:210-216 | a slot update keeps ids unique and the counter at least the resident total, and keeps it exact when the copy preserves capacity |
| CacheRuns.TruncateKeepsValid | noid_chain/src/exact_segment_cache.rs:223-230 | truncation recounts the bytes exactly and no id at or above the count remains |
| CacheRuns.StepAccounting | noid_chain/src/exact_segment_cache.rs:189-230 | which single operations can abort, and that every other keeps the cache valid |
| CacheRuns.RunAccounting | noid_chain/src/exact_segment_cache.rs:156-160 | after every sequence of operations the counter covers the resident sizes within the budget it started with; with capacity-preserving copies it equals them and nothing aborts |
| CacheRecency.RunIsRecent | noid_chain/src/exact_segment_cache.rs:189-230 | after every run the entries stand in the order in which each id was last inserted or written, so eviction takes the least recent |
| CacheRecency.TruncatedExactly | noid_chain/src/exact_segment_cache.rs:223-230 | truncation keeps exactly the ids below the count, in their order, and counts their bytes |
| CacheRuns.ShrinkingCopyAborts | noid_chain/src/exact_segment_cache.rs:210-216 | four operations after which a copy with smaller capacity makes the eviction loop take from an empty list |
| CacheRuns.EveryHistoryIsCurrent | noid_chain/src/exact_segment_cache.rs:181-230 | over every history that mirrors slot writes and inserts current columns, ids are unique, every cached root is the plain root of the current columns, and an interior read answers exactly on aligned ranges inside the segment, with the plain root of that range |
| CacheRuns.HistoryStaysCoherent | noid_chain/src/exact_segment_cache.rs:181-230 | each cached node array equals a rebuild of its segment's current columns after every such history |
| SegmentCacheObject.ExactSegmentCache.Get | noid_chain/src/exact_segment_cache.rs:182-187 | lookup by id without touching the order |
| SegmentCacheObject.ExactSegmentCache.Remove | noid_chain/src/exact_segment_cache.rs:189-194 | takes out the entry and its bytes; the cache stays valid and the drift of its counter does not change |
| SegmentCacheObject.ExactSegmentCache.Insert | noid_chain/src/exact_segment_cache.rs:196-208 | removes, evicts and appends as specified; completes whenever the counter was exact |
| SegmentCacheObject.ExactSegmentCache.MakeRoom | noid_chain/src/exact_segment_cache.rs:203-206 | the eviction loop, and whether it would take from an empty list |
| SegmentCacheObject.ExactSegmentCache.UpdateSlot | noid_chain/src/exact_segment_cache.rs:210-216 | the updated tree moves to the back; the counter is not touched |
| SegmentCacheObject.ExactSegmentCache.Clear | noid_chain/src/exact_segment_cache.rs:218-221 | empties entries and counter, after which the counter is exact again |
| SegmentCacheObject.ExactSegmentCache.TruncateSegments | noid_chain/src/exact_segment_cache.rs:223-230 | keeps the lower ids in order and recounts |
| SharedTrees.ActRefines | noid_chain/src/exact_segment_cache.rs:162-169 | every operation on a cache of shared trees does what it would do on private copies, aborts exactly when it would there, and changes nothing another cache can see |
| SharedTrees.WriteOwnership | noid_chain/src/exact_segment_cache.rs:210-216 | a write goes in place exactly when the tree has one owner; otherwise it goes to a fresh copy and the shared tree keeps its value |
| SharedTrees.SharingIsInvisible | noid_chain/src/exact_segment_cache.rs:162-169 | every interleaving of operations and clones over any number of sharing caches is observed as if each cache owned deep copies, up to and including an abort, whatever capacity the copies reserve |
| SegmentedState.WrittenSlots | noid_chain/src/segmented_state.rs:576-635 | a write changes what that one slot reads as, also in an evicted segment, which a non-empty write brings back as empty columns; no segment counts more or less beyond its live slots than before |
| SegmentedState.WrittenAt | noid_chain/src/segmented_state.rs:576-635 | the same by global index |
| SegmentedState.WriteCountsExactly | noid_chain/src/segmented_state.rs:576-635 | from exact counts a write leaves them exact if and only if the segment is not evicted, held nothing live, or the written value is empty |
| SegmentedState.EvictedWriteMiscounts | noid_chain/src/segmented_state.rs:588-615 | a concrete write to an evicted segment after which the count is wrong |
| SegmentedState.BatchCountsExactly | noid_chain/src/segmented_state.rs:570-637 | from exact counts a batch leaves them exact if and only if every evicted segment it brings back held nothing live |
| SegmentedState.WidestDomain | noid_chain/src/segmented_state.rs:54-58 | the widest domain has as many segments as a segment has slots, 65536 |
| SegmentedResize.ExpandedSlots | noid_chain/src/segmented_state.rs:1255-1315 | after expansion the lower half reads as before and the upper half is empty |
| SegmentedResize.ExpandedValid | noid_chain/src/segmented_state.rs:1255-1315 | expansion keeps counts, sizes and evictions consistent, and every count as exact as it was |
| SegmentedResize.ShrunkSlots | noid_chain/src/segmented_state.rs:1322-1404 | one halving keeps every slot of the lower half |
| SegmentedResize.ShrunkValid | noid_chain/src/segmented_state.rs:1322-1404 | an accepted halving keeps counts, sizes and evictions consistent |
| SegmentedResize.ShrinkUndoesExpand | noid_chain/src/segmented_state.rs:1255-1404 | halving after doubling is accepted and gives back every slot and eviction, and every count; a single segment is counted afresh |
| SegmentedResize.BlockedNowhere | noid_chain/src/segmented_state.rs:1361-1378 | dropping upper segments is allowed exactly when none of them is evicted or live |
| SegmentedResize.ShrinksWhenClear | noid_chain/src/segmented_state.rs:1330-1376 | one halving is accepted exactly when no slot of the upper half is live, evicted or counted live |
| SegmentedResize.NarrowsClear | noid_chain/src/segmented_state.rs:1322-1404 | once everything beyond a narrower domain was clear, that domain has the same clear slots as the one before it |
| SegmentedStateObject.SegmentedFriState.constructor | noid_chain/src/segmented_state.rs:375-410 | a new state is all empty with nothing cached, evicted or stale |
| SegmentedStateObject.SegmentedFriState.ExactSegmentRoot | noid_chain/src/segmented_state.rs:776-797 | from the cache, from the empty table or by rebuilding, the answer is the plain root of the segment's current slots, and an evicted segment is refused |
| SegmentedStateObject.SegmentedFriState.WriteSlot | noid_chain/src/segmented_state.rs:576-635 | columns, counts and cache move together, evicted segments included: the cache stays a mirror of the columns, and the segment is marked, for its root and for its raw commitment, exactly when the slot changed |
| SegmentedStateObject.SegmentedFriState.ApplyDelta | noid_chain/src/segmented_state.rs:570-637 | a batch with an index out of range changes nothing; otherwise every slot holds its last write, exactly the evicted segments it writes into come back, no excess changes, every segment outside the marked ones is untouched, and the cache still matches |
| SegmentedStateObject.SegmentedFriState.EvictSegment | noid_chain/src/segmented_state.rs:990-999 | only resident columns become evicted, the cached tree is dropped, all else stays |
| SegmentedStateObject.SegmentedFriState.RestoreEvictedSegment | noid_chain/src/segmented_state.rs:1003-1031 | the segment reads as the restored columns with an exact live count and its raw commitment is stale, all else stays |
| SegmentedStateObject.SegmentedFriState.Expand | noid_chain/src/segmented_state.rs:1255-1315 | the specified doubling with the cache still matching; growing a single segment leaves no raw commitment stale, more segments change none; aborts exactly when a single evicted segment would have to be committed again |
| SegmentedStateObject.SegmentedFriState.ShrinkOnce | noid_chain/src/segmented_state.rs:1322-1404 | one halving, after which no raw commitment is stale, or its refusal without change, with the cache still matching; aborts exactly when a stale raw commitment belongs to an evicted segment |
| SegmentedStateObject.SegmentedFriState.ShrinkToLogSlots | noid_chain/src/segmented_state.rs:1322-1404 | an invalid target changes nothing; a valid one is reached exactly when everything above it is clear; a refusal stops at the last depth whose upper part was clear and returns the error of the halving that would lose something; remaining slots, evictions and counts are kept |
| SparseMultiproof.FoldOfPlain | noid_chain/src/sparse_merkle.rs:633-695 | folding the touched leaves with the tree's own frontier gives the plain root |
| SparseMultiproof.FoldBinds | noid_chain/src/sparse_merkle.rs:633-695 | two multiproofs over the same positions with one root have the same leaves and siblings, or the pairs they hash at one and the same place collide |
| SparseMultiproof.FrontierIgnoresTouched | noid_chain/src/sparse_merkle.rs:421-460 | the frontier does not depend on the touched leaves |
| SparseMultiproof.TransitionSound | noid_chain/src/sparse_merkle.rs:633-695 | a proof accepted for the old root carries the true old leaves and frontier, and with the new leaves gives the true new root; otherwise a pair the proof hashes collides with the pair the tree hashes at that place |
| SparseMultiproof.ParentsShape | noid_chain/src/sparse_merkle.rs:393-418 | parents of ascending positions ascend and fit, and how many siblings a level needs |
| FrontierCapacity.MaximumSiblingCount | noid_chain/src/sparse_merkle.rs:305-324 | the closed form is computed by doubling |
| FrontierCapacity.CountWithinMaximum | noid_chain/src/sparse_merkle.rs:305-324 | no set of touched leaves needs more siblings than the closed form |
| FrontierCapacity.MaximumAttained | noid_chain/src/sparse_merkle.rs:296-324 | for every count and depth some set of leaves needs exactly that many |
| SegmentCapacity.AncestorsAreSegments | noid_chain/src/sparse_merkle.rs:326-336 | the positions a number of levels up are exactly the segments the touched leaves fall into |
| SegmentCapacity.InsideSegments | noid_chain/src/sparse_merkle.rs:329-335 | inside their segments no touched set needs more siblings than the widest sharing allows, however it is shared out |
| SegmentCapacity.BalancedIsWidest | noid_chain/src/sparse_merkle.rs:369-381 | sharing the leaves out evenly reaches that widest count |
| SegmentCapacity.CountWithinTotal | noid_chain/src/sparse_merkle.rs:369-387 | a touched set needs at most the total for the number of segments it uses |
| SegmentCapacity.TotalAttained | noid_chain/src/sparse_merkle.rs:369-387 | every such total is needed by some touched set |
| SegmentCapacity.MaximumSiblingCountWithSegmentCap | noid_chain/src/sparse_merkle.rs:338-391 | the loop over used segments returns exactly the most siblings that a touched set of that size within the cap can need |
| StreamingRoot.StreamingSparseRoot.AppendBlock | noid_chain/src/state.rs:90-101 | the merge loop of the stack computes the carry of a binary counter |
| StreamingRoot.AppendedHolds | noid_chain/src/state.rs:90-101 | pushing a block that fits the stack appends its leaves to what the stack commits to |
| StreamingRoot.AlignedWhenDivides | noid_chain/src/state.rs:111-121 | a block that divides the position fits the stack |
| StreamingRoot.StreamingSparseRoot.FillZeroGap | noid_chain/src/state.rs:103-123 | a gap of any length is emitted as empty leaves, and is refused exactly when it runs backwards or past the domain |
| StreamingRoot.StreamingSparseRoot.PushLeaf | noid_chain/src/state.rs:125-135 | a leaf lands at its index with empty leaves before it |
| StreamingRoot.StreamingSparseRoot.Finish | noid_chain/src/state.rs:137-146 | one block is left, and it is the plain root of all leaves; refused exactly when a leaf was pushed past the domain |
| StreamingRoot.ExactSegmentRootWithUpdates | noid_chain/src/state.rs:270-303 | streaming the live slots of a segment, with updates laid over short, missing or full columns, gives the plain root |
| StateRoots.RootOfRoots | noid_chain/src/state.rs:149-153 | the tree over the segment roots has the plain root of all slots, at every depth |
| StateRoots.BuildTree | noid_chain/src/state.rs:181-191 | the array over the segment roots holds every node above them |
| StateRoots.ExpandedTotal | noid_chain/src/state.rs:230-250 | an expanded hierarchy has the old root on the left of an empty tree |
| StateRoots.GrownStep | noid_chain/src/state.rs:681-683 | a hierarchy grown to the domain in one go holds what expanding it with every doubling would have given |
| StateRoots.GrownCommon | noid_chain/src/state.rs:230-267 | the records of two depths agree on the segments of the shallower one |
| StateRoots.ExactSegmentRootCache.SetSegmentRoot | noid_chain/src/state.rs:202-215 | replacing one segment root keeps every node of the upper tree right |
| StateRoots.ExactSegmentRootCache.ExpandOne | noid_chain/src/state.rs:230-250 | single and multi-segment hierarchies double as specified, with the expected root |
| StateRoots.ExactSegmentRootCache.ShrinkTo | noid_chain/src/state.rs:252-267 | upper halves are dropped and lower roots kept down to one full segment |
| StateUpdates.GroupedFinds | noid_chain/src/state.rs:853-864 | grouping a batch by segment keeps the last write to every slot |
| StateUpdates.OverlayIsUpdated | noid_chain/src/state.rs:905-909 | the overlay of a cached tree gives the root of the slots with the whole group laid over them |
| StateUpdates.AppliedContents | noid_chain/src/state.rs:952-954 | applying a batch that touches no evicted segment gives every segment, resident or not, its group of updates |
| ChainState.ChainState.constructor | noid_chain/src/state.rs:394-404 | a new chain state has the empty root of its depth and no supply |
| ChainState.ChainState.ApplyDelta | noid_chain/src/segmented_state.rs:563-637 | every segment outside the marked ones keeps its recorded root |
| ChainState.ChainState.EvictSegment | noid_chain/src/segmented_state.rs:990-999 | eviction changes nothing about the content of the domain |
| ChainState.ChainState.TryStateRoot | noid_chain/src/state.rs:680-702 | with the hierarchy any number of levels behind or ahead of the domain, refreshing only the marked segments, in any order, gives the plain root of every slot; refused exactly when a marked segment is evicted |
| ChainState.ChainState.ReachDomain | noid_chain/src/state.rs:681-686 | growing a hierarchy that is behind and cutting one that is ahead both leave every unmarked segment rightly recorded at the domain's depth |
| ChainState.ChainState.RefreshMarked | noid_chain/src/state.rs:687-697 | every marked segment gets its root recorded, or an evicted one stops the refresh with the record still right |
| ChainState.ChainState.ExpandRaw | noid_chain/src/segmented_state.rs:1255-1315 | doubling the raw state alone, as often as wanted, leaves a record the next refresh can grow; behind a rollback, under the same condition as ExpandOne |
| ChainState.ChainState.ExpandOne | noid_chain/src/state.rs:634-653 | the root of the doubled domain is the old root beside an empty tree, so a current root stays current without a refresh and the supply does not change; behind a rollback that was not refreshed, the recorded roots stay right if and only if the new half is recorded as empty |
| StateContents.LaggingExpand | noid_chain/src/state.rs:230-250 | that condition, for every domain and hierarchy |
| StateContents.StaleAfterRollback | noid_chain/src/state.rs:634-653 | one segment, rolled back from two and not refreshed: the condition fails |
| StaleRecord.RollBackAndGrow | noid_chain/src/state.rs:634-702 | write a slot of the second segment and refresh, empty it, roll back, grow: nothing is marked, every slot is empty, and the refreshed root is the one from before the slot was emptied |
| ChainState.ChainState.ShrinkState | noid_chain/src/storage/mdbx_context.rs:1021-1028 | the slots after a rollback are the first slots of before, evicted ones included, and the supply is unchanged; every remaining segment is recorded or marked; it reaches the target exactly when nothing beyond is live or evicted, and aborts exactly when a stale raw commitment is evicted |
| StateTransition.NarrowedSlots | noid_chain/src/storage/mdbx_context.rs:1021-1028 | a narrower domain holds the first slots of the wider one, in memory or evicted, also below one full segment |
| ChainState.ChainState.RestoreEvictedSegment | noid_chain/src/state.rs:726-764 | columns are reinstalled exactly when their size, live count and root are the recorded ones; nothing else changes and a current root stays current, whatever the depth of the hierarchy; aborts exactly when the record reaches a segment the domain no longer has |
| StateTransition.SegmentBinds | noid_chain/src/state.rs:748-762 | columns under one root are the same columns, or the two trees collide at one node, or two slots at one leaf: what is restored is what was evicted |
| ChainState.ChainState.SegmentRootWithUpdates | noid_chain/src/state.rs:905-912 | from a cached tree of the right depth or streamed from columns, the root is that of the updated segment |
| ChainState.ChainState.RefreshedCopy | noid_chain/src/state.rs:866-887 | a copy of the hierarchy with the marked segments refreshed has the roots of the whole domain |
| ChainState.ChainState.ExactUtxoRootAfterSlotUpdates | noid_chain/src/state.rs:841-917 | without changing anything it predicts the plain root of the domain, doubled or not, with the batch laid over it; it answers exactly when depth and indices fit, nothing involved is evicted and the recorded root is the true one |
| StateTransition.PredictionHolds | noid_chain/src/state.rs:938-959 | growing and applying the batch gives exactly the predicted content and root |
| ChainState.ChainState.GrowAndWrite | noid_chain/src/state.rs:944-954 | growing and writing leave exactly the predicted content, with no marked segment evicted; aborts exactly when a single evicted segment would grow |
| ChainState.ChainState.ApplyVerifiedExactTransition | noid_chain/src/state.rs:919-968 | succeeds exactly when the claimed root is the predicted one; then the refreshed root is the claimed root, the state is the batch applied, the supply is the sum of all amounts and the counters are the given ones; a refusal changes nothing |
| ChainState.ChainState.CheckTransition | noid_chain/src/state.rs:927-948 | from a right supply, a transition whose claimed root is the predicted one passes every check, and its new supply is the sum of all amounts after the batch |
| ChainState.ChainState.SupplyAfterSlotUpdates | noid_chain/src/state.rs:585-612 | from a right supply, the amounts of the touched slots give the sum of all amounts after the batch, with no subtraction failing; refused exactly when a touched segment is evicted |
| StateSupply.FlatUpdated | noid_chain/src/state.rs:585-612 | updating segment by segment is updating the flat domain slot by slot |
| StateSupply.SupplyIsSum | noid_chain/src/state.rs:560-583 | slots that carry amounts in the low 64 bits and creation ids above them have as supply the sum of the amounts |
| StateSupply.SupplyMoves | noid_chain/src/state.rs:605-609 | replacing a slot packed from one amount by one packed from another moves the supply by the difference of the amounts, whatever the creation ids |
| StateFrontier.ReadsAreFrontier | noid_chain/src/state.rs:792-829 | reading every missing node of a multiproof gives its honest frontier |
| StateFrontier.NodeAbove | noid_chain/src/state.rs:796-802 | a node above the segments is a node over their roots |
| StateFrontier.NodeWithin | noid_chain/src/state.rs:804-828 | a node inside a segment is the root of a slice of that segment |
| StateFrontier.SegmentNodeHash | noid_chain/src/state.rs:217-228 | answers exactly for nodes of the upper tree, with their plain roots |
| StateFrontier.ExactLocalSubtreeRoot | noid_chain/src/state.rs:337-364 | an aligned part of a segment, streamed, has its plain root; an absent segment is empty |
| ChainState.ChainState.ReadNode | noid_chain/src/state.rs:794-829 | every node of the domain is read from roots, cached trees or columns with its plain root, unless its segment is evicted |
| ChainState.ChainState.ExactFrontierSiblings | noid_chain/src/state.rs:771-831 | the frontier read from the compact state is the honest one, and with the true leaves it folds to the state root; it answers exactly when the root is current, the indices ascend in range and every segment needed is in memory |
| SparseMerkleObject.ValidateIndices | noid_chain/src/sparse_merkle.rs:1097-1118 | accepts exactly non-empty strictly ascending indices inside the tree |
| SparseMerkleObject.HashLevel | noid_chain/src/sparse_merkle.rs:662-688 | one level consumes exactly the missing siblings in order and yields the parents with their hashes |
| SparseMerkleObject.ReconstructRoot | noid_chain/src/sparse_merkle.rs:633-695 | accepts exactly canonical topologies with the exact sibling count, and folds them |
| SparseMerkleObject.SparseMerkleCache.SetLeaf | noid_chain/src/sparse_merkle.rs:265-303 | every stored level is that of the updated leaves, empty nodes being left out of the map |
| SparseMerkleObject.SparseMerkleCache.Root | noid_chain/src/sparse_merkle.rs:252-255 | the root is the plain root of all leaves |
| SparseMerkleObject.ReadIsFrontier | noid_chain/src/sparse_merkle.rs:1062-1079 | reading the cache at the frontier positions gives the tree's frontier |
| SparseMerkleObject.BuildThenVerify | noid_chain/src/sparse_merkle.rs:1062-1079 | a multiproof built from the cache verifies, also with new leaves at the touched positions |
| Wire.LeThenFrom | noid_chain/src/wire.rs:15-76 | a little-endian integer reads back |
| Wire.FromThenLe | noid_chain/src/wire.rs:15-76 | bytes read as an integer are written back |
| Wire.LastIsHighest | noid_chain/src/wire.rs:15-76 | every further byte counts 256 times as much as the one before |
| Wire.ConcatTaken | noid_chain/src/wire.rs:35-76 | fields of known width written one after another are taken off again exactly |
| Wire.TakenConcat | noid_chain/src/wire.rs:35-76 | taking fields succeeds exactly when the input is long enough, and loses nothing |
| HeaderWire.HeaderCanonical | noid_chain/src/wire.rs:88-163 | exactly the encodings decode, each to its header, and exactly the 212-byte strings are encodings |
| HeaderWire.HeaderLayout | noid_chain/src/wire.rs:88-119 | the byte range of each of the eleven header fields in the 212-byte wire form |
| Sponge.Poseidon2bSponge.Update | noid_poseidon2b/src/native/compression.rs:79-104 | however a stream is cut into chunks, the sponge is in the state of the whole stream |
| Sponge.Poseidon2bSponge.Finalize | noid_poseidon2b/src/native/compression.rs:126-130 | the digest is that of everything absorbed, padded |
| Sponge.PaddedInjective | noid_poseidon2b/src/native/compression.rs:293-298 | different streams reach the permutation as different whole blocks |
| Sponge.PaddedIs | noid_poseidon2b/src/native/compression.rs:293-298 | the padding written out: to the next multiple of 32 bytes, high bit first, low bit last, both in one byte when only one is free |
| Sponge.HashBinds | noid_poseidon2b/src/native/compression.rs:126-130 | one digest for two streams is a collision of their padded blocks |
| Sponge.SlicesInjective | noid_poseidon2b/src/native/compression.rs:274-290 | the framed stream of a domain and its slices determines both, slice boundaries included |
| Sponge.HashByteSlices | noid_poseidon2b/src/native/compression.rs:274-290 | the loop hashes exactly that framed stream |
| HeaderIdentity.HashStreamInjective | noid_chain/src/block_header.rs:73-89 | the chain-link schedule feeds different bytes for different headers |
| HeaderIdentity.HashLayout | noid_chain/src/block_header.rs:73-89 | the byte range of each header field in the 256 bytes the block id absorbs |
| HeaderIdentity.SemanticLayout | noid_chain/src/block_header.rs:104-119 | the byte range of each field in the 240 bytes of the semantic id, which leave the nonce out |
| HeaderIdentity.SemanticStreamForgetsNonce | noid_chain/src/block_header.rs:97-119 | two headers feed the semantic schedule alike exactly when they agree on everything but the nonce |
| HeaderIdentity.BlockIdBinds | noid_chain/src/block_header.rs:73-95 | one block id for two headers is a collision of their padded streams |
| HeaderIdentity.SemanticIdIgnoresNonce | noid_chain/src/block_header.rs:97-119 | one template has one semantic id across every nonce |
| HeaderIdentity.AbsorbDigest | noid_chain/src/block_header.rs:121-126 | splitting a digest into two integers absorbs exactly its bytes |
| HeaderIdentity.HashBlockHeader | noid_chain/src/block_header.rs:73-89 | the absorbing sequence computes the block id |
| HeaderIdentity.SemanticHeaderId | noid_chain/src/block_header.rs:104-119 | the absorbing sequence computes the semantic id |
| TxTree.FoldOfPath | noid_chain/src/tx_tree.rs:66-89 | the path built for any position folds to the top of the layer |
| TxTree.FoldBinds | noid_chain/src/tx_tree.rs:92-112 | two paths at one index with one root have the same leaf and siblings, or the pairs the two folds hash in one and the same step collide |
| TxTree.OwnPathIncluded | noid_chain/src/tx_tree.rs:66-112 | every transaction's own path is accepted under the block's root |
| TxTree.InclusionSound | noid_chain/src/tx_tree.rs:92-112 | an accepted path proves the real transaction count, that the leaf is the transaction at that position and that the path is the block's own; otherwise its wrapped root collides with the block's, or one of its steps with the block's step at that height |
| TxTree.RootBinds | noid_chain/src/tx_tree.rs:45-63 | two transaction lists with one root are equal, order and length included; otherwise one hashes to the digest of no transactions, their wrapped roots collide, or the two trees at one node |
| TxTree.ZeroSuffix | noid_chain/src/tx_tree.rs:45-63 | appending a transaction id of 32 zero bytes does not change the top of the tree, only the count tells |
| TxTree.RootIs | noid_chain/src/tx_tree.rs:45-63 | the root written out: 256 leaves, zero digests behind the transactions, halves hashed left before right, wrapped with the two-byte count |
| TxTree.RootFromHashes | noid_chain/src/tx_tree.rs:45-63 | the layer loop computes the counted root |
| TxTree.PathFromHashes | noid_chain/src/tx_tree.rs:66-89 | the loop returns a full-depth path that the verifier accepts |
| TxTree.VerifyPath | noid_chain/src/tx_tree.rs:92-112 | accepts exactly the included leaves, and no count or index out of range |
| Receipt.ProofHeader | noid_block/src/contract_receipt.rs:105-121 | succeeds exactly for at most 42 descendants, each one height up, hash-linked and worked, and returns the last of them |
| Receipt.ProofHeight | noid_block/src/contract_receipt.rs:105-121 | the proof boundary is as many blocks above the call as there are descendants, within the bound |
| Receipt.BoundaryBindsChain | noid_block/src/contract_receipt.rs:105-121 | equal boundary and equal number of descendants mean equal call header and equal chain; otherwise the two chains hold different headers of one block id at one height |
| Receipt.CheckSize | noid_block/src/contract_receipt.rs:94-103 | terminal length in range and ancestry sound |
| Receipt.CheckInclusion | noid_block/src/contract_receipt.rs:123-143 | activation, call check, page id and tree path all hold, and the checked call is returned |
| Receipt.VerifyWithTerminal | noid_block/src/contract_receipt.rs:176-192 | succeeds exactly for an accepted receipt on the selected header whose terminal verifies against the boundary the descendants reach |
| Receipt.AcceptedNamesTransaction | noid_block/src/contract_receipt.rs:123-143 | an accepted receipt's page is the block's transaction at its index, its count is the block's and its path the block's own; otherwise what the receipt hashes collides with what the block hashes, at the wrap or in one step |
| ReceiptCodec.HeadExact | noid_block/src/contract_receipt.rs:204-213 | the fixed part reads back exactly what was written and nothing else |
| ReceiptCodec.HeadersExact | noid_block/src/contract_receipt.rs:274-284 | the descendants read back exactly what was written and nothing else |
| ReceiptCodec.FrameIsLayout | noid_block/src/contract_receipt.rs:225-257 | a string that passes marker, count, bounds and length checks is the layout of its parts |
| ReceiptCodec.LayoutFrames | noid_block/src/contract_receipt.rs:194-223 | every layout passes those checks and gives back its parts |
| ReceiptCodec.HeadLayout | noid_block/src/contract_receipt.rs:204-213 | the byte range of opening, page, both headers, index, count and every path digest in the fixed part |
| ReceiptCodec.ReceiptLayout | noid_block/src/contract_receipt.rs:194-223 | marker bytes, fixed part, descendant count, terminal length and terminal at their offsets in both layouts |
| ReceiptCodec.DescendantLayout | noid_block/src/contract_receipt.rs:214-219 | descendant i stands at byte 1716 + 212 i |
| ReceiptCodec.ParseExact | noid_block/src/contract_receipt.rs:194-299 | in both formats a string decodes to a receipt if and only if it is that receipt's encoding |
| ReceiptCodec.AcceptedPrefixFree | noid_block/src/contract_receipt.rs:225-257 | no accepted string is a proper prefix of another accepted string, whatever they decode to |
| ReceiptObject.ToBytes | noid_block/src/contract_receipt.rs:194-223 | writes exactly the accepted receipts whose parts encode, each in its wire form |
| ReceiptObject.Cursor.Take | noid_block/src/contract_receipt.rs:258-263 | the cursor never leaves the buffer |
| ReceiptObject.ReadHead | noid_block/src/contract_receipt.rs:264-273 | the cursor reads the fixed part as the specification cuts it |
| ReceiptObject.ReadHeaders | noid_block/src/contract_receipt.rs:274-284 | the cursor reads the announced number of headers |
| ReceiptObject.FromBytes | noid_block/src/contract_receipt.rs:225-299 | accepts exactly the strings that decode, with that receipt |
| CandidateWitness.Align | noid_block/src/candidate_history.rs:166-207 | succeeds exactly when openings and marked transactions match one for one in order inside the slot window and every call checks |
| CandidateWitness.AlignmentOneToOne | noid_block/src/candidate_history.rs:166-207 | then contracts rise strictly inside the window, cover exactly the marked transactions, and carry their opening's program, state and rules, its checked call, and at every height its authority and recipient |
| CandidateWitness.AlignsExactly | noid_block/src/candidate_history.rs:166-207 | alignment succeeds if and only if openings and marked transactions are equally many, all marks lie in the window, consecutive unless sequential, and every call passes |
| CandidateWitness.CallsArePrefix | noid_block/src/candidate_history.rs:170-176 | without the sequential configuration the marked transactions are exactly a prefix of the user transactions |
| CandidateWitness.RewriteAuthorities | noid_block/src/candidate_history.rs:235-265 | succeeds exactly when every contract lies in an ordinary group with one authorization, and rewrites in place as specified |
| CandidateWitness.RewrittenAt | noid_block/src/candidate_history.rs:246-264 | every authorization ends with the authority selected by the last contract naming it, or untouched |
| CandidateWitness.LogicalIdExact | noid_block/src/candidate_history.rs:246-264 | an index has a logical transaction exactly if the first group whose pages hold it is an ordinary one, and then it is that group's |
| CandidateWitness.HolderDecides | noid_block/src/candidate_history.rs:246-264 | in contiguous groups exactly one group holds an index, and it alone decides |
| CandidateWitness.ContractGetsItsAuthority | noid_block/src/candidate_history.rs:246-264 | the group that holds a contract's index is ordinary and names its logical transaction, and its one authorization ends with the authority its deadline selects if and only if the last contract with the same logical id selects that authority too |
| CandidateWitness.OthersUntouched | noid_block/src/candidate_history.rs:247-264 | authorizations no contract names are unchanged |
| CandidateResources.TakeGroup | noid_block/src/candidate_history.rs:301-376 | one group is refused exactly for its operation or the settlement limit, and otherwise adds its share |
| CandidateResources.TotalsAre | noid_block/src/candidate_history.rs:301-376 | the running totals by whole-list counts: authorization records set or present, settlement inputs, native groups and creations |
| CandidateResources.FitsExactly | noid_block/src/candidate_history.rs:290-389 | a stream fits if and only if every operation is permitted by its code and the whole-list counts stay within the configured limits |
| CandidateResources.ValidateScheduledCandidateResources | noid_block/src/candidate_history.rs:290-389 | with all its early returns it accepts exactly when every operation is permitted and the whole-list counts are within the limits |
| CandidateResources.OrderDoesNotMatter | noid_block/src/candidate_history.rs:301-387 | for fixed counts, acceptance does not depend on the order of the groups |
| CandidateResources.RemovalKeepsFit | noid_block/src/candidate_history.rs:301-387 | for fixed counts, removing groups keeps acceptance |
| TradeAuthorization.VerifyAuthorizations | noid_block/src/native_trade.rs:121-163 | the two loops compute the specified verdict, and on success the map is left empty |
| TradeAuthorization.VerifyExact | noid_block/src/native_trade.rs:121-163 | success means exactly a bijection between capsule ids and policy ids whose pairs verify |
| TradeAuthorization.VerifyOutput | noid_block/src/native_trade.rs:139-157 | the output is a permutation of the capsules in policy order, each answering its policy, with none left over |
| TradeAuthorization.VerifyUnordered | noid_block/src/native_trade.rs:126-163 | verdict, output and error do not depend on the order of the capsules |
| QuirkyEval.Evaluate | bench_prover/benches/pcs_roofline.rs:81-108 | block fold then halving computes the sum over every witness index of entry, Lagrange weight of its low bits and product over its high bits |
| QuirkyEval.BlocksKeepSum | bench_prover/benches/pcs_roofline.rs:85-95 | folding the blocks keeps the weighted sum while dropping the low bits |
| QuirkyEval.HalvingKeepsSum | bench_prover/benches/pcs_roofline.rs:97-104 | one halving keeps the weighted sum while dropping one variable |
| Sumcheck.ClaimSplits | noid_ivc_core/src/zerocheck.rs:574-589 | a claim is the weighted sum of the round polynomial at zero and one |
| Sumcheck.FoldedClaim | noid_ivc_core/src/zerocheck/multilinear.rs:259-283 | folding both tables at a challenge turns the claim into the quadratic through the values at zero, one and infinity |
| Sumcheck.ReconstructExact | noid_ivc_core/src/zerocheck.rs:591-598 | away from weight one the reconstructed value at zero is the only one consistent with the running claim |
| Sumcheck.ReconstructTrue | noid_ivc_core/src/zerocheck.rs:591-598 | the value at zero is reconstructed right exactly for a true claim, and at weight one exactly when it is zero, because the inverse of zero is zero |
| Sumcheck.HonestRound | noid_ivc_core/src/zerocheck.rs:591-606 | after an honest message the next claim is true exactly when the value at zero was reconstructed right or the challenge is one |
| Sumcheck.FoldAllEvaluates | noid_ivc_core/src/zerocheck.rs:420-426 | binding every variable evaluates the multilinear extension at the challenges |
| Sumcheck.EqTableSumsToOne | noid_ivc_core/src/zerocheck/univariate_skip.rs:28-47 | the equality table sums to one at every point |
| Sumcheck.HonestRun | noid_ivc_core/src/zerocheck.rs:574-620 | for every table size, weights, challenges and starting claim: honest messages are accepted if and only if the claim is true or a challenge is one, while no weight is one; after a last weight of one, if and only if the value at zero of that round is zero or a challenge from then on is one |
| SumcheckSoundness.FalseClaimStaysFalse | noid_ivc_core/src/zerocheck.rs:574-606 | for every weight and whatever the prover sends, three challenges repair a false claim if and only if the weight is one, the message is the honest one and the value at zero is zero; otherwise at most two do |
| SumcheckSoundness.AcceptedFalseRun | noid_ivc_core/src/zerocheck.rs:574-620 | an accepted run from a false claim was repaired in some round, by one of at most two challenges unless that round forgot the claim |
| SumcheckSoundness.HonestRefused | noid_ivc_core/src/zerocheck.rs:591-620 | tables 1, 0 at weight one and challenge zero: an honest prover is refused |
| SumcheckSoundness.EveryChallengeRepairs | noid_ivc_core/src/zerocheck.rs:591-620 | a false claim of zero about tables 0, 1 at weight one is accepted for every challenge |
| SumcheckCounting.DrawsExact | noid_ivc_core/src/zerocheck.rs:590-606 | every challenge sequence over a pool is drawn exactly once |
| SumcheckCounting.FalseClaimRarelyAccepted | noid_ivc_core/src/zerocheck.rs:590-620 | of the p^n challenge sequences over a pool of p, a false claim is accepted on at most 2n p^(n-1), over any tables and against any prover that adapts to the challenges seen, when no weight is one |
| SumcheckCounting.WeightOneForgets | noid_ivc_core/src/zerocheck.rs:590-620 | with a weight of one anywhere, two zero tables carry every claim through on every challenge sequence |
| SumcheckCounting.SoundExactly | noid_ivc_core/src/zerocheck.rs:590-620 | over a pool larger than 2n the bound holds for all tables, claims and provers if and only if no weight is one |
| FieldInverse.Inv | noid_ivc_core/src/field/gf2_128.rs:59-68 | the squaring loop computes the power 2^128 - 2 |
| FieldInverse.InvObeysLaws | noid_ivc_core/src/field/gf2_128.rs:57-68 | in a field of that order the power inverts every nonzero element and sends zero to zero |
| SumcheckObject.DoubleTable | noid_ivc_core/src/zerocheck/univariate_skip.rs:40-44 | doubling from the top down reads nothing after overwriting it |
| SumcheckObject.BuildEq | noid_ivc_core/src/zerocheck/univariate_skip.rs:31-47 | the in-place table holds every product of weights |
| SumcheckObject.FoldInPlacePair | noid_ivc_core/src/zerocheck/multilinear.rs:669-686 | folding in place leaves the folded tables in the first halves |
| SumcheckObject.RoundPairNaive | noid_ivc_core/src/zerocheck/multilinear.rs:259-283 | the message is the round polynomial at one, scaled by the first weight, and at infinity |
| SumcheckProver.ProveFrom | noid_ivc_core/src/zerocheck.rs:379-426 | with the fused kernel on large tables, in place on small ones, and buffers that trade places, the round loop sends the specified messages and ends with both evaluations |
| SumcheckProver.ProveRounds | noid_ivc_core/src/zerocheck.rs:379-426 | from the tables alone, with the first message of a plain pass, the rounds send the specified messages and end with both evaluations |
| SumcheckObject.VerifyRounds | noid_ivc_core/src/zerocheck.rs:590-620 | accepts exactly when the running claim ends at the product of the final values |
| SumcheckProver.WeightSplits | noid_ivc_core/src/zerocheck/univariate_skip.rs:184-194 | the weight of an index is the weight of its low bits times that of its high bits |
| SumcheckProver.SplitSum | noid_ivc_core/src/zerocheck/multilinear.rs:749-944 | summing chunk by chunk against the low table and then over the high table is the whole weighted sum |
| SumcheckProver.FusedChunk | noid_ivc_core/src/zerocheck/multilinear.rs:749-937 | one worker folds its chunk of both tables and returns its two partial sums |
| SumcheckProver.FoldAndComputeRoundPairInto | noid_ivc_core/src/zerocheck/multilinear.rs:718-945 | the fused pass writes the folded tables and returns the message those tables would give |
| SumcheckProver.BindRound | noid_ivc_core/src/zerocheck.rs:379-413 | fused or in place, a round binds its variable and computes the next message |
| SumcheckProver.ProveThenVerify | noid_ivc_core/src/zerocheck.rs:379-620 | over any tables, weights and challenges the claims are the multilinear evaluations, and the exchange is accepted exactly when honest messages pass, so always when no weight is one |
| PackedFold.SumSplits | noid_ivc_core/src/zerocheck/multilinear.rs:361-369 | a sum over the set bits of a byte is the sum without its lowest bit and the entry of that bit |
| PackedFold.TabulateByte | noid_ivc_core/src/zerocheck/multilinear.rs:355-370 | single bits first, then every other value from two smaller entries, fills a byte's table with all 256 sums and touches nothing else |
| PackedFold.BuildFoldTable | noid_ivc_core/src/zerocheck/multilinear.rs:348-373 | the table holds every partial sum of every byte of the weights |
| PackedFold.DotGrowsByByte | noid_ivc_core/src/zerocheck/multilinear.rs:381-384 | one more byte of a row adds exactly the sum over its set bits |
| PackedFold.FoldOneRow | noid_ivc_core/src/zerocheck/multilinear.rs:377-386 | eight lookups give the weighted sum of all 64 bits of a row |
| PackedFold.PackBits | noid_ivc_core/src/zerocheck/univariate_skip.rs:142-162 | packing keeps every bit and leaves the rest clear |
| PackedFold.FoldAtZNaive | noid_ivc_core/src/zerocheck/multilinear.rs:218-237 | the reference fold over unpacked bits gives the same table as the packed one |
| PackedFold.SkippedIsPadding | noid_ivc_core/src/zerocheck/multilinear.rs:51-63 | every bit of a pair of rows the kernel skips lies in the padding of its block |
| PackedFold.SkippedExactly | noid_ivc_core/src/zerocheck/multilinear.rs:51-63 | in blocks longer than a pair, a pair of rows is skipped if and only if its first bit is padding |
| PackedFold.SkippedFoldsToZero | noid_ivc_core/src/zerocheck/multilinear.rs:39-63 | so both of its rows fold to zero |
| PackedFold.PackedChunk | noid_ivc_core/src/zerocheck/multilinear.rs:530-606 | one worker folds its chunk of both witnesses, skipping padding, and its two partial sums are those of the full chunk |
| PackedFold.UniSkipFoldAndRoundPair | noid_ivc_core/src/zerocheck/multilinear.rs:483-615 | the packed pass returns every row's weighted sum and the message the plain pass over those tables would give |
| PackedFold.RowsEvaluate | noid_ivc_core/src/zerocheck/multilinear.rs:209-237 | binding every variable of the row table evaluates the witness: every bit times the weight of its index |
| PackedFold.ProvePacked | noid_ivc_core/src/zerocheck.rs:323-426 | from packed witnesses with padding, the messages are those of the row tables and the final claims are the witnesses' evaluations |
| PackedFold.ProvePackedThenVerify | noid_ivc_core/src/zerocheck.rs:323-620 | from packed witnesses the verifier accepts exactly when honest messages pass, so always from the true claim when no weight is one |
| MatrixChecks.FullPreflight | noid_node/matrix_checks.rs:53-184 | a full check over as many classes as announced always completes, with the manifest of its inputs |
| MatrixChecks.ReplayOfFullRun | noid_node/matrix_checks.rs:53-184 | replaying that manifest over the same inputs opens exactly when it fits the read bound, fails exactly when a canonical length is out of bounds, and otherwise gives the same seals and an equal manifest |
| MatrixChecks.ReplayReemits | noid_node/matrix_checks.rs:66-184 | every prechecked sequence that completes was opened under the digest of its file and re-emits its manifest |
| MatrixChecks.OpensExactly | noid_node/matrix_checks.rs:66-108 | a prechecked pack opens if and only if it is a pinned pack, the pin is 64 hexadecimal digits, the file is small enough and hashes to the pin, and its manifest is for this schema, bank, metadata and class count |
| MatrixChecks.PinBinds | noid_node/matrix_checks.rs:66-108 | two files opened under one pin are equal or collide |
| MatrixChecks.ReplayBindsInputs | noid_node/matrix_checks.rs:110-147 | a completed replay was shown the same files, shapes, payload hashes and digests in the same order |
| MatrixChecks.PackChecks.AuthenticateNext | noid_node/matrix_checks.rs:110-174 | one class is checked at the position given by the classes recorded so far, and recorded |
| MatrixChecks.RunPreflight | noid_node/matrix_checks.rs:110-184 | all classes in order and the write compute the specified preflight |
| MatrixLru.PinnedDiskMatrixSource.LoadChecked | bench_prover/benches/history_step_proof.rs:84-139 | one load moves or admits the class and drops the oldest beyond two |
| MatrixLru.LoadTouches | bench_prover/benches/history_step_proof.rs:92-138 | a load succeeds exactly when the class is resident or admitted, and a failed load changes nothing |
| MatrixLru.TouchIsRecent | bench_prover/benches/history_step_proof.rs:92-137 | touching the deque is recording the load, for every capacity |
| MatrixLru.RunIsRecent | bench_prover/benches/history_step_proof.rs:84-139 | after every sequence of loads the deque holds exactly the most recently loaded distinct classes, at most two, oldest first |
| MatrixLru.RunReturnsAdmitted | bench_prover/benches/history_step_proof.rs:92-138 | every matrix returned for a class is one admission produced for that class |
| MatrixLru.ResidentStable | bench_prover/benches/history_step_proof.rs:92-99 | a resident class keeps the matrix admission stored |
| MatrixLru.TwoLoadsStay | bench_prover/benches/history_step_proof.rs:134-137 | loading one class then another leaves exactly those two, from every starting state |
| PowPartition.XorDigest | bench_prover/benches/poseidon_pow_mining.rs:43-47 | in-place XOR of two digests |
| PowPartition.MineRange | bench_prover/benches/poseidon_pow_mining.rs:64-77 | the batched loop hashes every nonce of its range once in order and XORs them; an empty or inverted range does nothing |
| PowPartition.PerThreadIsLeast | bench_prover/benches/poseidon_pow_mining.rs:79-90 | the share of a thread is the least one with which all threads together cover the attempts |
| PowPartition.MoveKeepsInv | bench_prover/benches/poseidon_pow_mining.rs:86-102 | every hash and every counter addition of every thread keeps the invariant that ties sinks, counter and hashed nonces to the ranges |
| PowPartition.EveryScheduleCounts | bench_prover/benches/poseidon_pow_mining.rs:92-104 | at every moment of every interleaving the counter is at most the number of hashes and behind by at most one batch for each thread |
| PowPartition.EveryScheduleMines | bench_prover/benches/poseidon_pow_mining.rs:79-112 | for every attempt and thread count, every interleaving of single hashes and counter additions and every reduction tree: each nonce below the count is hashed exactly once, the counter ends at the count and the XOR is the sequential one |
| ReleaseText.SplitJoined | scripts/release_material.py:94-114 | newline-terminated lines come back as written |
| ReleaseText.SplitsExactly | scripts/release_material.py:78-94 | text splits at the seven line-break characters, a carriage return and newline being one break, and an unfinished last line counts |
| ReleaseText.PinExactly | scripts/release_material.py:79-86 | a line pins a name if and only if it is that required name, a first `=` and exactly as many lower-case hexadecimal digits as required; only blank lines and comments are skipped |
| ReleaseText.EntryExactly | scripts/release_material.py:95-98 | a line lists a name under a digest if and only if it is 64 lower-case hexadecimal digits, two spaces and that non-empty name |
| ReleaseText.ValidatePins | scripts/release_material.py:76-88 | accepts exactly ASCII text whose every pin line is well formed and which pins every required name exactly once |
| ReleaseText.CollectExact | scripts/release_material.py:91-100 | reading entries succeeds exactly when every line names a known file once, and then lists them |
| ReleaseText.ReadEntries | scripts/release_material.py:91-100 | succeeds exactly when the manifest lists every file exactly once |
| ReleaseArchive.VerifyManifest | scripts/release_material.py:91-104 | accepts exactly a tree whose files match the manifest and whose pins are valid |
| ReleaseArchive.CheckMembers | scripts/release_material.py:166-181 | with its early refusals it accepts exactly archives of the required non-empty files, once each, and directories above them, within the size limit |
| ReleaseArchive.PathsBelow | scripts/release_material.py:162-166 | a path lies below a directory exactly if it continues it behind a slash |
| ReleaseArchive.Runner.Extract | scripts/release_material.py:156-195 | unpacks exactly the extractable archives; a refused one leaves the output directory as it was |
| ReleaseArchive.WriteArchive | scripts/release_material.py:107-130 | refuses wrong, empty or badly pinned sources and otherwise writes the files in order and the manifest |
| ReleaseArchive.WrittenExtracts | scripts/release_material.py:107-195 | a written archive extracts under its own digest exactly when it fits the limit and the destination is free, and reproduces every source |
| ReleaseArchive.AcceptedIsComplete | scripts/release_material.py:156-195 | an accepted archive holds every required file exactly once with the digest its manifest lists |
| ReleasePacks.EveryPackIsGood | scripts/release_material.py:14-58 | every kind and profile that exists has a well-formed file table, and only the legacy kind can be retired |
| ReleasePacks.RetiredDropsMatrices | scripts/release_material.py:53-58 | retiring the legacy pack drops its compressed matrices and nothing else |
| ReleasePacks.PinsAreDigests | scripts/release_material.py:39-50 | every pin is one digest in hexadecimal, the legacy leaf pin two |
| ReleasePacks.ChecksTravel | scripts/release_material.py:14-37 | the matrix check manifest is in every pack but the legacy one, which holds four files, the others seven and six |
| ReleasePacks.EveryPackRoundTrips | scripts/release_material.py:53-195 | the round trip holds for every pack kind and retired profile |

## Findings

Properties the code does not have for every input, each with its exact condition and, where it takes more than one step to see, an input or a run:

- A weight of one in the zerocheck (`noid_ivc_core/src/zerocheck.rs:591-598`) discards the running claim, because the inverse of zero is zero. HonestRefused and EveryChallengeRepairs are inputs; HonestRun, FalseClaimStaysFalse and SoundExactly say exactly when it matters. Outer weights are sampled, so the source meets it with negligible probability.
- A copy that reserves less than its original makes the cache counter overstate (`noid_chain/src/exact_segment_cache.rs:210-216`); ShrinkingCopyAborts is a run after which an insertion aborts, and InsertOutcome says exactly when one does.
- A write to an evicted segment keeps the old live count (`noid_chain/src/segmented_state.rs:588-615`); EvictedWriteMiscounts is an input, WriteCountsExactly and BatchCountsExactly are the condition. Slots still read as written.
- Growing a single evicted segment aborts (`noid_chain/src/segmented_state.rs:1255-1280`), and so does shrinking while a stale raw commitment belongs to an evicted segment (`noid_chain/src/segmented_state.rs:1529-1536`); the contracts of Expand, ShrinkOnce and ExpandOne state both.
- Doubling the domain after a rollback, before the root is refreshed, keeps roots recorded for the discarded half (`noid_chain/src/state.rs:634-653`); RollBackAndGrow is a run that ends with a wrong root, and the contracts of ExpandOne and ExpandRaw are the condition. Both callers of the rollback refresh first (`noid_chain/src/storage/mdbx_context.rs:1039-1041`).
- After such a rollback, restoring empty columns for a discarded segment passes every check and then aborts (`noid_chain/src/state.rs:726-764`); the contract of RestoreEvictedSegment is the condition.
- The streaming builder accepts a leaf one past the domain and refuses only when it finishes (`noid_chain/src/state.rs:103-146`); PushLeaf and Finish state both bounds. Slot indices of 32 bits cannot reach it at full depth.

## Left out

- Poseidon2b permutation and field arithmetic, the univariate-skip first round, Fiat-Shamir sampling, the polynomial commitment, GKR and R1CS provers, recursion and zero-knowledge authorization: parameters or absent. Challenges are arbitrary sequences, so no probability is stated.
- Machine integer width: indices and sizes are unbounded, with the source's range checks kept; byte counters, nonce products and heights are assumed not to overflow.
- SegmentTree.OverlayMatchesAnyWriteOrder: the overlay carries the width of a subtree as its exponent where the source carries the width itself.
- CacheRuns.RunAccounting: exact accounting needs copies to preserve capacity, because an update may copy a shared tree without recounting; without that hypothesis only the inequality holds, and ShrinkingCopyAborts shows why.
- SharedTrees.SharingIsInvisible: reference counts are derived from the caches instead of stored; a copy reserves at least its length and at most what its original did.
- SegmentedStateObject.SegmentedFriState.WriteSlot: the state's own cache is not shared with a clone, so its updates copy nothing; SharedTrees and CacheRuns treat clones.
- SegmentedStateObject.SegmentedFriState.ShrinkToLogSlots: an abort is reported as not completed and leaves the state as it was.
- ChainState.ChainState.ExactUtxoRootAfterSlotUpdates: asks that the hierarchy and the domain have one depth, as after every refresh, and a depth of at most 32; callers refresh after a rollback.
- ChainState.ChainState.GrowAndWrite: asks for one depth, like the prediction it follows.
- ChainState.ChainState.ApplyVerifiedExactTransition: asks for one depth, like the prediction it starts with; amounts are summed without a width.
- Transaction bodies, snapshot construction and durable storage around the chain state: the store is what eviction put there.
- The raw segment commitment tree and its incremental flush, and the persistence summaries: of these only the set of stale segments is kept, for its aborts.
- Structural frontier plans, padding and the sequential path expansions of the sparse multiproof.
- HeaderWire.HeaderCanonical: the buffer writes of one field after another are a concatenation.
- ReceiptCodec.ParseExact: the opening and page codecs, the contract call, page hashing and proof of work are parameters; opening and page are required to be canonical fixed-width codecs.
- Building a receipt from a block body, and the runtime-specific terminal verification.
- CandidateWitness.Align: the earlier header, anchor, root and opening-map checks of candidate preparation are not part of it.
- QuirkyEval.Evaluate: the Lagrange weights are given, not computed from the skip challenge; parallel maps are loops.
- PackedFold.UniSkipFoldAndRoundPair: the 64 weights are given, not computed from the skip challenge; workers run one after another, vector instructions and unreduced products are plain ring operations, and `k & (2^n - 1)` is a remainder.
- SumcheckProver.FoldAndComputeRoundPairInto: workers run one after another over their chunks, and unrolled iterations and unreduced products are plain ring operations.
- SumcheckCounting.FalseClaimRarelyAccepted: the final evaluations are the true ones, as the commitment opening checks.
- PowPartition.EveryScheduleMines: the counter addition and the thread's own next nonce are one step.
- MatrixChecks.ReplayOfFullRun: JSON, hashing and environment variables are parameters.
- MatrixLru.RunIsRecent: reading, hashing, decompressing and opening a file are one partial outcome; the mutex is not modelled.
- ReleaseArchive.Runner.Extract: tar and gzip are an encoding that reads back; directories exist as path prefixes only.
- Node networking, mempool, fork choice, difficulty adjustment, contract interpreter, GUI and live scripts.
