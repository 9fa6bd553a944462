# Verified model of the indexer, its alert outbox and its text and tree transformations

The repository indexes an Ethereum chain into Postgres, follows the chain through reorganisations,
posts signed webhooks about failed transactions, and serves call trees and failure statistics. This
project models its hard core in Dafny and proves what the code is for: that following a changing chain
ends in the right tables, that an alert is delivered once, and that the tree and text transformations
lose nothing and reveal nothing. To verify: `dafny verify dfyconfig.toml`.

## How it is organised

| file | models |
|---|---|
| `ForkScanning.dfy` | the pure fork classifier, the lazily widening scan over it, and its agreement with one full scan |
| `ChainTables.dfy` | the block-scoped tables as values: every statement of rollback and ingest, foreign keys, recent hashes |
| `Indexing.dfy` | the next target, the cycle cap, chunked ingest with cancellation and failure |
| `IndexedStore.dfy` | hash-linked chains, the tables indexing one chain gives, ingest, rollback and scan on such a store |
| `Interleaving.dfy` | the concurrent blocks of a chunk: any interleaving of their insert statements |
| `FollowLoop.dfy` | the follow loop against an environment that replaces the chain: what a cycle keeps, and what no later cycle touches |
| `Convergence.dfy` | whole runs: convergence, safety over chain changes, the cap of the scan |
| `FailedChunks.dfy` | chunks that fail half-way: resuming, repair, repeated trace rows, a rollback over their remains, foreign keys over all runs |
| `MixedRuns.dfy` | failed chunks and chain changes together: what the scan reports on remains, safety over whole runs |
| `MixedConvergence.dfy` | when the loop recovers from such a run on a healthy node, and when it fails for good |
| `LostRows.dfy` | receipts and traces the node withholds |
| `Witnesses.dfy` | small chains on which the loop goes wrong |
| `ChainDb.dfy` | the same operations as they run: a class whose methods update the tables in place |
| `AlertOutbox.dfy` | the claim protocol of N dispatchers over the delivery ledger |
| `AlertDispatch.dfy` | one dispatcher: treating one match, and the bounded concurrent batch loop |
| `RateAlerts.dfy`, `RateDispatch.dfy` | rate-threshold alerts: debounce without claims |
| `Redaction.dfy` | URL masking of stored error messages |
| `CallTrace.dfy` | parsing call traces, flattening them, reading the tree back from the depths |
| `TraceStore.dfy` | the stored trace, the root-cause query, the truncated page |
| `TypeList.dfy` | parameter lists of Solidity signatures |
| `LabelPivot.dfy` | failures by labelled contract |

Each SQL statement is one atomic step on maps and sets. RPC answers, HTTP results, clocks and cancellation
are inputs. A method that loops or updates state is proved equal to a function, and what the source
promises is proved about that function.

## Assumptions

- Chains are hash-linked and a block hash determines its block (`ChainOk`, `Committed`); `classify_fork`
  never reads a parent hash and relies on exactly this. A transaction is mined at most once per chain.
- During one follow cycle the node answers from one chain, and each height it is asked for gets one answer.
  Convergence further needs the chain to stay, to reach the stored tip, and lookups to succeed.
- Stored blocks carry hashes in the whole-run theorems. `RecentBlockHashes` itself skips rows without one.
- Block numbers stay below 2^63, so the `i64` casts and the chunk arithmetic do not wrap.
- "Complete" means with everything the node served. Whole-run theorems about all tables assume that receipts
  and traces are served (`Lossless`); those about the block table and the checkpoint need no such
  assumption (`LossesDoNotMoveBlocks`), and `LostRows.dfy` says exactly what a withheld answer costs.
- In `TraceStore.dfy` a trace is inserted once unless a lemma says otherwise. In the tables every dependent
  row carries its number of copies; `insert_trace_logs` has no conflict clause, so its rows are appended
  on every attempt.
- The database clock does not run backwards. Each claim, scan and record happens at one instant.

## Where the code does less than its documentation says

Each of these is proved, with a concrete input or the exact condition.

1. An inconclusive scan is called safe (`worker.rs:137-138`, "no rollback"). It is safe for the stored rows,
   but the cycle goes on to index above the tip. If the tip was stale, the new rows are not linked to it
   (`CycleKeepsLinkIff`), and since the new tip agrees with the chain the stale row is never looked at again
   (`UnsoundCycleIsPermanent`). `OneMissedLookupLosesAReorg` is a run of three blocks in which one failed lookup
   does this.
2. `rollback_from_block` sets the checkpoint to `fork - 1` whatever it was. When rows lie above the
   checkpoint, left by a failed chunk, the checkpoint can move past blocks that were never stored
   (`RollbackKeepsContiguousIff`, `ReorgOverRemainsIff`), and they are never indexed (`BlockRowStays`).
   `RollbackCanPassAHole` shows it from the failed chunk through the scan to every later run. A fork at
   height 0 rewinds to checkpoint 0, so block 0 is not indexed again (`RollbackResumesAtForkIff`).
3. `record_alert_delivery` promises exactly one delivery together with the pending scan. It overwrites the
   row without a condition: a worker that records after its claim went stale can produce a second
   delivery (`LateRecordDeliversTwice`). The promise survives a record exactly when no live holder and no
   delivery stands in its way: then no timely continuation delivers a pair twice, and otherwise some timely
   continuation does (`RecordIsHarmlessIff`). Recording within the stale window is enough (`OutboxIsSafe`). The
   theorems are about recorded deliveries: a crash between post and record can repeat the post.
4. Scan and claim are said to share one criterion. They differ at the single instant where a claim is
   exactly `stale_after_secs` old (`ScanAgreesWithClaim`).
5. The rate alerts' comment allows "1-2" overlapping dispatches. With k dispatchers the bound is k per
   debounce window, and it is reached (`AtMostKDispatchesPerWindow`, `RaceReachesTheBound`).
6. `get_first_error_frame` is described as the place where the revert really happened. Pre-order puts a
   failing caller before its failing callee, so the outermost failing frame is reported; it is the first
   revert exactly when no call below it failed (`RootCauseIsFirstRevertIff`; `PassedOnRevertIsHidden` is an
   example).
7. One rollback is exact only if the stale part fits the scan cap (`RollbackAtForkIsExact`); repeated
   rounds make the cap immaterial (`ScanCapIsImmaterial`).
8. `cap_range_to` exceeds its cap for one input: all of `u64` under the cap `u64::MAX`, where the span
   saturates (`CapRangeToIsPrefix`). A transferred value above `u128::MAX` is stored as 0
   (`DecimalValueOfHex`).
9. Re-processing a block is not idempotent: its trace rows are stored again (`SecondIngest`). After failed
   chunks and their repair the tables equal an undisturbed indexing if and only if no failed attempt had
   inserted the trace of a block that has one; otherwise each of its rows is there once more per such
   attempt (`RepairIsExactIff`, `CopiesAfterRepair`; `FailedChunkStoresATraceTwice` is an example). The page of such a transaction shows the call tree
   that many times, and is cut the earlier; the root cause is unaffected (`PageOfRepeatedTrace`).
10. Absent receipts are taken for an empty list and a failed trace is skipped, while the checkpoint moves on.
    A block read for the first time is complete if and only if all of it was served
    (`FreshBlockIsCoveredIff`), and no later run on that chain completes it (`PassedBlockIsNeverRepaired`; `OneMissedTraceIsLost` is an
    example). The trace rows and the classification are lost in any case; the failed row itself only where the
    database has no trigger that writes a stub of it with the transaction, which is not part of this model.
11. A node whose chain ends below the stored tip leaves the loop stale for as long as that lasts: the tip has
    no answer, so nothing is rolled back, and nothing is confirmed above it (`ShortChainsAreIgnored`). With a
    healthy node the loop converges if and only if the chain reaches the tip (`FollowConvergesIff`). With the
    remains of failed chunks in the tables it recovers exactly if no row lies beyond the chain, and none above the
    checkpoint and the safe head while the tip agrees, or no hole below the lowest stale row while it does not
    (`ConvergesIffRecovers`).
12. The pending scan lists failed matches again and again, ordered by hash and limited: as many permanently
    failing matches as the limit starve every match with a larger hash (`FailingMatchesStarveOthers`).

## Model

| member | source | states |
|---|---|---|
| ForkScanning.ClassifyFork | crates/indexer/src/worker.rs:793-828 | the loop's verdict is determined by the mismatching run at the tip: NoReorg, the run's lowest height, Inconclusive at a missing hash, NeedDeeper only if rows remain |
| ForkScanning.NextScanDepth | crates/indexer/src/worker.rs:832-837 | the depth strictly grows up to the maximum, at least and at most fourfold below the clamp |
| ForkScanning.DetectFork | crates/indexer/src/worker.rs:256-305 | the lazy driver computes `Detect`; the heights it asks for are the first rows of the window, tip first, each once, and at most max(1, 4d) when d rows mismatch at the tip |
| ForkScanning.FetchUpTo | crates/indexer/src/worker.rs:270-290 | a fetch round asks for exactly the heights after the cached ones, in order, stops at the first missing answer, and is complete exactly when all are answered |
| ForkScanning.DetectMeaning | crates/indexer/src/worker.rs:256-305 | the scan reports the lowest row of the mismatching run exactly if every row of the fetched window is answered |
| ForkScanning.LazyScanRefinesFullScan | crates/indexer/src/worker.rs:246-255 | a reported fork is the full scan's fork; the two differ exactly when the full scan finds a fork and an answer in the fetched window is missing |
| ChainTables.RollbackMeaning | crates/db/src/queries.rs:839-903 | the eight statements together leave exactly the rows below the fork and of transactions below it, and the checkpoint at max(fork-1, 0) if there was one |
| ChainTables.EveryDeleteKeepsIntegrity | crates/db/src/queries.rs:843-889 | after each single statement every dependent row still has its transaction and every transaction its block |
| ChainTables.TransactionsMustGoAfterDependents | crates/db/src/queries.rs:832-836 | deleting transactions first breaks a foreign key exactly when a stale transaction has a dependent row |
| ChainTables.RollbackComposes | crates/db/src/queries.rs:829-839 | rollback(b) then rollback(a) is rollback(a) for a <= b |
| ChainTables.RollbackIsIdempotent | crates/db/src/queries.rs:829-830 | a second identical rollback changes nothing |
| ChainTables.EveryInsertKeepsIntegrity | crates/indexer/src/worker.rs:380-479 | an ingest stopped after any statement leaves foreign keys and the transaction key intact |
| ChainTables.IngestMeaning | crates/indexer/src/worker.rs:380-479 | a whole ingest adds the block unless its height is stored, the unknown transactions, the missing rows of four tables, and one more copy of every trace row |
| ChainTables.SecondIngest | crates/db/src/queries.rs:451-453 | a second ingest changes nothing but the trace table, where each row of the block gets another copy; harmless exactly when it has none |
| ChainTables.RecentBlockHashesSound | crates/db/src/queries.rs:818-831 | the window is strictly descending, at most `limit` long and true to the table |
| ChainTables.RecentBlockHashesComplete | crates/db/src/queries.rs:818-831 | a stored hash is in the window, or the window is full and lies above it |
| Indexing.NextTargetExact | crates/indexer/src/worker.rs:738-753 | a block is in the target if and only if it is confirmed and above the checkpoint (without one: the safe tip alone) |
| Indexing.CapRangeToIsPrefix | crates/indexer/src/worker.rs:721-731 | a zero cap and a reversed range change nothing; otherwise the capped range is a non-empty prefix, as long as the cap allows; the one input that exceeds the cap |
| Indexing.InterruptedIndexingIsComplete | crates/indexer/src/worker.rs:55-88 | finished, cancelled or failed: every block below the height reached is stored with everything the node served for it, the checkpoint is just below it, nothing stored is changed; it finishes iff the whole range is done |
| Indexing.IndexedByBatches | crates/indexer/src/worker.rs:66-84 | after c processed chunks and an event that stops the run, exactly the first c times the batch size blocks (or the whole range, if less) are complete, the checkpoint is just below their end, only the next chunk can have left rows, and the outcome is the stopping event's |
| Indexing.ReachedExactly | crates/indexer/src/worker.rs:66-84 | the height a run reaches, as start plus c times the batch size, capped by the range |
| Indexing.SignalExactly | crates/indexer/src/worker.rs:66-80 | a run is cancelled or fails exactly if the range is longer than the chunks before the stopping event |
| Indexing.ChunkEnd | crates/indexer/src/worker.rs:66-76 | a chunk is no longer than the batch size, and shorter only at the end of the range |
| Indexing.IndexFromAddsOnly | crates/indexer/src/worker.rs:66-84 | a run without failure stores no block at or above the height it reached |
| Indexing.IndexFromAdds | crates/indexer/src/worker.rs:66-84 | whatever fails, a run changes and removes nothing, and everything it adds is of the blocks of its range |
| Indexing.IndexFromCopies | crates/db/src/queries.rs:451-453 | the exact number of copies of a row: one for a finished block, one more trace row for each failed attempt that reached its statement |
| IndexedStore.AgreeBelow | crates/indexer/src/worker.rs:810-816 | agreement of two linked chains at a height means equal blocks up to it, which the classifier assumes |
| IndexedStore.IndexedIsSound | crates/indexer/src/worker.rs:341-490 | the tables of a chain satisfy both foreign keys and the transaction key |
| IndexedStore.IngestOrderIsIrrelevant | crates/indexer/src/worker.rs:316-331 | ingesting new blocks of one chain in any order gives the tables of the union |
| IndexedStore.RollbackOfStore | crates/db/src/queries.rs:839-903 | rolling back the tables of blocks [lo, hi) gives the tables of [lo, fork) |
| IndexedStore.IndexFromExtendsStore | crates/indexer/src/worker.rs:55-88 | indexing onto the tables of [lo, start) gives the tables of [lo, reached) |
| IndexedStore.ScanOfStore | crates/indexer/src/worker.rs:256-305 | on a store a reported fork is the true fork point or the window's floor; with all answers a stale tip is always reported |
| IndexedStore.RollbackAtForkIsExact | crates/indexer/src/worker.rs:139-141 | rollback at the detected fork keeps every agreeing row, and only agreeing rows exactly when the stale part fits the cap |
| Interleaving.InterleavingIsIrrelevant | crates/indexer/src/worker.rs:316-331 | any interleaving of the blocks' insert statements, each block stopping anywhere, gives the tables of one block after the other |
| Interleaving.FinishedChunk | crates/indexer/src/worker.rs:329-333 | a finished chunk has ingested all of its blocks, whatever the interleaving |
| FollowLoop.SoundCycleKeepsStore | crates/indexer/src/worker.rs:134-188 | a cycle turns the tables of one chain into the tables of one chain: cut at the fork, unchanged, or extended to the height reached |
| FollowLoop.CycleKeepsLinkIff | crates/indexer/src/worker.rs:137-152 | stored rows stay linked by parent hash exactly when the cycle does not index on a stale tip, or stops before the row of the next block is stored |
| FollowLoop.OutcomeMeaning | crates/indexer/src/worker.rs:134-188 | from scan, head, checkpoint and chunk events: when a cycle is a reorg, lacks a head, is idle or indexes, and exactly when it ends the loop, by cancellation or by an error |
| FollowLoop.TargetOfCycle | crates/indexer/src/worker.rs:156-178 | a cycle indexes exactly if the block above the checkpoint is confirmed, from there to the safe tip or for 500 blocks |
| FollowLoop.LossesDoNotMoveBlocks | crates/indexer/src/worker.rs:359-380 | over every run, withheld receipts and traces change neither the block table nor the checkpoint |
| FollowLoop.SettledRowsStay | crates/indexer/src/worker.rs:134-188 | once the tip agrees, every later run on that chain only adds rows of blocks above the checkpoint, whatever fails |
| FollowLoop.BlockRowStays | crates/indexer/src/worker.rs:134-188 | a block row at or below the checkpoint, stale or not, survives every such run, and a missing one stays missing |
| FollowLoop.UnsoundCycleIsPermanent | crates/indexer/src/worker.rs:284-289 | once a cycle has stored anything on a stale tip, the stale row stays for good, even if the cycle then failed |
| FollowLoop.ProcessedIsContiguous | crates/indexer/src/worker.rs:134-188 | over successive cycles on an agreeing chain, whatever fails, the blocks finished are those from the next height on, in order, without gap or overlap |
| FollowLoop.ShortChainsAreIgnored | crates/indexer/src/worker.rs:284-289 | while the node's chain ends below the stored tip nothing changes, however often and with whatever short chains |
| Convergence.SettlesOnReachingChain | crates/indexer/src/worker.rs:134-242 | on a steady chain that reaches the stored tip, after the stated number of cycles the tables equal a fresh indexing of the chain up to the confirmed head |
| Convergence.FollowConvergesIff | crates/indexer/src/worker.rs:134-242 | with a healthy node the loop converges, for good and within a known number of cycles, if and only if the node's chain reaches the stored tip; otherwise nothing ever changes |
| Convergence.SoundRunKeepsStore | crates/indexer/src/worker.rs:134-242 | however chains are replaced between cycles, the tables are always those of a single chain of the run |
| Convergence.ConvergesAfterAnySoundHistory | crates/indexer/src/worker.rs:134-242 | after any sound history the loop converges to the node's chain, every confirmed block above the start included, if and only if that chain reaches the checkpoint |
| Convergence.FirstCycleStartsAtSafeTip | crates/indexer/src/worker.rs:733-747 | an empty database starts with exactly the safe tip |
| Convergence.CappedRollbacksReachForkPoint | crates/indexer/src/worker.rs:817-827 | rounds of capped scan and rollback end at the true fork point |
| Convergence.ScanCapIsImmaterial | crates/indexer/src/worker.rs:755-759 | those rounds end in the same tables and checkpoint as one rollback at the fork of an uncapped scan |
| FollowLoop.RollbackKeepsContiguousIff | crates/db/src/queries.rs:890-899 | the blocks up to the checkpoint stay stored exactly when none is missing between the old checkpoint and the fork |
| FollowLoop.RollbackResumesAtForkIff | crates/db/src/queries.rs:840-899 | indexing resumes at the fork itself exactly when the fork is not block 0 |
| FailedChunks.RunKeepsPartial | crates/indexer/src/worker.rs:55-88 | over runs on one chain with missing lookups and heads, failing chunks and restarts, receipts and traces being served: blocks below the checkpoint stay complete, the checkpoint never moves back, every row is the chain's |
| FailedChunks.FailedChunksAreRepaired | crates/indexer/src/worker.rs:134-188 | on a healthy node the tables become those of an undisturbed indexing, up to repeated trace rows |
| FailedChunks.RunCopies | crates/db/src/queries.rs:451-453 | over a run on one chain, the exact number of copies of every row |
| FailedChunks.CopiesAfterRepair | crates/db/src/queries.rs:435-470 | after a disturbed run and its repair a trace row is there once plus once per failed attempt that had inserted it, every other row once |
| FailedChunks.RepairIsExactIff | crates/db/src/queries.rs:435-470 | the repaired tables equal an undisturbed indexing if and only if no failed attempt had inserted the trace of a block that has one |
| FailedChunks.RollbackOfPartialIsStoreIff | crates/db/src/queries.rs:839-903 | a rollback over remains leaves exactly the blocks below the fork, up to repeated trace rows, if and only if every block between the checkpoint and the fork is complete |
| FailedChunks.RunKeepsKeys | crates/indexer/src/worker.rs:94-244 | over every run whatsoever the foreign keys and the transaction key hold |
| MixedRuns.RunSameKeys | crates/indexer/src/worker.rs:134-242 | tables that differ only in repeated trace rows develop alike |
| MixedRuns.ScanOfRemains | crates/indexer/src/worker.rs:256-305 | on the remains of failed chunks a reported fork is stored and stale, and no stored height lies between the chains' fork point and it, unless the window was full |
| MixedRuns.ReorgOverRemainsIff | crates/db/src/queries.rs:839-903 | the reported rollback leaves one chain's tables if and only if every block between the checkpoint and the reported fork is complete; when that fork lies at or below the next block to index |
| MixedRuns.SafeRunKeepsPartial | crates/indexer/src/worker.rs:134-242 | with chains replaced and chunks failing, as long as no cycle builds on a stale tip or rolls back past a hole, the tables hold one chain's blocks, complete up to the checkpoint |
| MixedConvergence.AgreeingConvergesIff | crates/indexer/src/worker.rs:134-242 | with an agreeing tip the loop recovers if and only if every block below the checkpoint is complete and no row lies above both it and the safe head |
| MixedConvergence.StaleConvergesIff | crates/indexer/src/worker.rs:134-242 | with a stale tip the capped rollbacks end at the lowest stale row, and the loop recovers if and only if every block below it is complete |
| MixedConvergence.NeverBeyondChain | crates/indexer/src/worker.rs:284-289 | a stored row at or beyond the end of the node's chain blinds the scan, and the loop never converges |
| MixedConvergence.ConvergesIffRecovers | crates/indexer/src/worker.rs:134-242 | with remains of failed chunks a healthy node brings the tables to its chain, up to repeated trace rows, if and only if `Recovers` holds |
| MixedConvergence.ConvergesDespiteFailuresIff | crates/indexer/src/worker.rs:134-242 | the same after any safe history of chain changes, failed chunks, missing lookups and restarts |
| LostRows.PassedBlockIsCoveredIff | crates/indexer/src/worker.rs:359-366 | a block the cycle passes is complete if and only if what was withheld of it was stored before |
| LostRows.FreshBlockIsCoveredIff | crates/indexer/src/worker.rs:359-366 | a block read for the first time is complete if and only if all of it was served |
| LostRows.BlockIsReadInFullIff | crates/indexer/src/worker.rs:518-535 | what must be withheld for that: the receipts of a block that has any, or the trace of a transaction that has one |
| LostRows.PassedBlockIsNeverRepaired | crates/indexer/src/worker.rs:738-753 | on an agreeing chain no later run completes or damages a block at or below the checkpoint |
| Witnesses.OneMissedLookupLosesAReorg | crates/indexer/src/worker.rs:284-289 | two stored blocks, a three-block chain and one failed lookup: the stale block survives every later run |
| Witnesses.RollbackCanPassAHole | crates/db/src/queries.rs:840-899 | a failed chunk that stored block 14 only, then a reorg of it: the scan reports 14, the checkpoint becomes 13, and blocks 11 to 13 are never indexed |
| Witnesses.FailedChunkStoresATraceTwice | crates/db/src/queries.rs:435-470 | a chunk that fails after the trace insert, then a healthy retry: the trace row is stored twice, all else is as undisturbed |
| Witnesses.OneMissedTraceIsLost | crates/indexer/src/worker.rs:518-529 | one unavailable trace: the block is passed without it and no later run completes it |
| ChainDb.Database.RollbackFromBlock | crates/db/src/queries.rs:839-903 | the in-place deletes equal `Rollback`, and the number of deleted blocks is returned |
| ChainDb.Database.UpdateCheckpoint | crates/db/src/queries.rs:775-793 | only the checkpoint changes |
| ChainDb.Database.ProcessBlock | crates/indexer/src/worker.rs:341-490 | the first statements of a block's ingest, in place, equal `IngestPrefix` |
| ChainDb.Database.InsertDependentRows | crates/db/src/queries.rs:184-358 | rows already there are skipped, except that trace rows are appended again |
| ChainDb.Database.ProcessChunk | crates/indexer/src/worker.rs:309-334 | whichever block runs its next statement next, in the end every block of the chunk is ingested |
| ChainDb.Database.IndexRange | crates/indexer/src/worker.rs:55-88 | the chunk loop, in steps of the batch size, gives the tables and the outcome of `IndexFrom` and finishes exactly the heights from the start to the height reached, in order, without gap or overlap |
| ChainDb.Database.FollowCycle | crates/indexer/src/worker.rs:134-188 | one cycle gives the tables and the outcome of `Cycle`, whose cases `OutcomeMeaning` and the convergence theorems fix, and the blocks it finished |
| ChainDb.Database.Follow | crates/indexer/src/worker.rs:94-244 | the loop equals `Run` over the cycles it made, with all blocks they finished; every cycle but the last let it go on, its answer is the outcome of the last, and it stops before the end of the list only on a cancellation or an error |
| AlertOutbox.ScanAgreesWithClaim | crates/db/src/queries.rs:1018-1025 | claimable if and only if not excluded by the anti-join, except for a claim exactly `stale` old |
| AlertOutbox.PendingIff | crates/db/src/queries.rs:1010-1026 | a pair is pending if and only if the subscription is active and per-event, its category and address, where given, are the failure's, and no row of the pair is delivered or freshly claimed |
| AlertOutbox.PendingIsOfTables | crates/db/src/queries.rs:1010-1015 | nothing is pending but pairs of a stored subscription and a stored failure |
| AlertOutbox.PendingIsClaimable | crates/db/src/queries.rs:1010-1028 | every match the claim accepts is pending; a pending one whose row stays is claimable at any later time |
| AlertOutbox.InBatchByRank | crates/db/src/queries.rs:1026-1027 | a pending pair is in the scan's batch if fewer than `limit` others come no later, and is not if `limit` come earlier |
| AlertOutbox.BeforeMeaning | crates/db/src/queries.rs:1026-1027 | the scan order is lexicographic |
| AlertOutbox.FailingMatchesStarveOthers | crates/db/src/queries.rs:1010-1028 | `limit` permanently failing matches with smaller hashes keep a match out of every batch, whatever is dispatched in between |
| AlertOutbox.AbandonedClaimComesBack | crates/db/src/queries.rs:1455-1459 | the exact times from which an abandoned claim is scanned and claimable again |
| AlertOutbox.OutboxIsSafe | crates/db/src/queries.rs:1441-1467 | over all interleavings with timely records or crashes: one live holder per pair, at most one delivered record, nothing after it, attempts equal claims plus records |
| AlertOutbox.LedgerTellsHistory | crates/db/src/queries.rs:1042-1070 | over every run, timely or not, a pair has a row exactly if it was claimed, created at its last claim, with status and error of the last claim or record, the time of a delivery since that claim, and as many attempts as claims and records |
| AlertOutbox.FinishKeepsSafeIff | crates/db/src/queries.rs:1042-1070 | a record keeps the protocol's invariant, live holders owning their rows included, exactly when no other live holder and no delivery stands in its way |
| AlertOutbox.RecordIsHarmlessIff | crates/db/src/queries.rs:1037-1070 | after a record every timely continuation delivers each pair at most once if and only if no other live holder and no delivery stood in its way |
| AlertOutbox.TakeoverIffLate | crates/db/src/queries.rs:1455-1459 | another worker can take a pair over exactly when its claim is past the stale window |
| AlertOutbox.CrashedClaimComesBack | crates/db/src/queries.rs:1455-1459 | after a crash between claim and record any worker, the restarted one included, can claim the pair exactly when the stale window has passed |
| AlertOutbox.LateRecordDeliversTwice | crates/db/src/queries.rs:1037-1041 | a run with a late record has two deliveries of one pair |
| AlertDispatch.DeliveryLedger.TryClaimAlertMatch | crates/db/src/queries.rs:1441-1467 | the in-place upsert equals `TryClaim`, and says whether a row was written |
| AlertDispatch.DeliveryLedger.RecordAlertDelivery | crates/db/src/queries.rs:1042-1070 | the in-place upsert equals `Record` |
| AlertDispatch.DeliveryLedger.DispatchItem | crates/indexer/src/alerts.rs:238-334 | an item is skipped exactly when not claimable; otherwise claim and one record, delivered only if the post succeeded |
| AlertDispatch.DispatchedColumns | crates/indexer/src/alerts.rs:238-334 | the outcome and every column of the row an undisturbed dispatch leaves: unsafe URL, corrupt secret, failed post with its redacted text cut to 500 characters, or delivered at the time of the record |
| AlertDispatch.DispatchedRow | crates/indexer/src/alerts.rs:238-334 | an undisturbed dispatch: attempts grow by two, the row is final exactly when delivered, post errors hold no URL scheme, other rows untouched |
| AlertDispatch.DispatchIsClaimThenRecord | crates/indexer/src/alerts.rs:238-334 | a dispatch is a claim, a wait and a record of the protocol's state machine, timely exactly if it takes at most the stale window |
| AlertDispatch.DispatchMetrics.Prime | crates/indexer/src/alerts.rs:358-364 | the first tasks are spawned up to the cap |
| AlertDispatch.DispatchMetrics.DispatchOnce | crates/indexer/src/alerts.rs:347-397 | after every spawn and every count, at most ten tasks are live and the items attempted but not counted are the live ones; each pending item is attempted and counted once, by how its task ends, for any completion order |
| AlertDispatch.TallyCountsEveryTask | crates/indexer/src/alerts.rs:368-387 | the four counters add up to the number of ended tasks |
| AlertDispatch.TallyCounters | crates/indexer/src/alerts.rs:368-387 | each counter is the number of tasks that ended that way, errors and panics counting as failures |
| RateAlerts.PendingRateIff | crates/db/src/queries.rs:1170-1193 | a subscription is listed if and only if it is active, nothing was dispatched for it within the debounce, and the failures inside the window reach the threshold; the count reported is their number |
| RateAlerts.EveryDispatchIsWarranted | crates/db/src/queries.rs:1166-1225 | over every run exactly the record events are recorded, and each follows a scan by the same worker, its last action before, at which the subscription was active, the threshold was reached inside the window, and no earlier record was younger than the debounce |
| RateAlerts.HoldersAreWarranted | crates/db/src/queries.rs:1170-1193 | a worker is about to record if and only if such a scan is the last thing it did |
| RateAlerts.AtMostKDispatchesPerWindow | crates/db/src/queries.rs:1182-1186 | any half-open window of the debounce's length holds at most k records; each dispatcher's own records are at least the debounce apart |
| RateAlerts.RaceReachesTheBound | crates/db/src/queries.rs:1160-1164 | k dispatchers can record k times in one window |
| RateDispatch.RateLedger.DispatchRateItem | crates/indexer/src/alerts.rs:405-480 | every item leads to exactly one record, whatever the branch |
| RateDispatch.RecordDebounces | crates/db/src/queries.rs:1182-1186 | a record silences its own subscription until the debounce has passed, delivered or not, and no other |
| RateDispatch.StoredCountIsExactIff | crates/indexer/src/alerts.rs:414-421 | the recorded match count is the counted one exactly below 2^31, and wraps around modulo 2^32 above |
| Redaction.RedactUrls | crates/indexer/src/alerts.rs:111-139 | the loop over both schemes equals `Redact` |
| Redaction.RedactLeavesNoScheme | crates/indexer/src/alerts.rs:104-110 | no output contains `http://` or `https://`, not even across a splice |
| Redaction.RedactIsIdentityIff | crates/indexer/src/alerts.rs:109-110 | exactly the scheme-free texts are unchanged; redaction is idempotent |
| Redaction.StoredMessageHasNoScheme | crates/indexer/src/alerts.rs:316-320 | redacting and then cutting to 500 characters exposes nothing |
| Redaction.RedactKeepsText | crates/indexer/src/alerts.rs:111-139 | all text outside URLs is kept in order and each URL becomes one mask |
| Redaction.EveryTextDecomposes | crates/indexer/src/alerts.rs:111-139 | every text is such a sequence of text and URLs |
| CallTrace.FlattenCallFrame | crates/decoder/src/trace.rs:175-202 | pushing onto the list keeps what is there and appends the flat list of the subtree, whose content `FlattenCarries` fixes |
| CallTrace.FlattenCarries | crates/decoder/src/trace.rs:174-202 | the flat list, read back from its depths, is one tree of the same shape; at every node each text column is the frame's, the gas is the same 64 bits, and the value is the decimal number of the hex text up to u128 |
| CallTrace.ParseHexIff | crates/decoder/src/trace.rs:127-133 | a hex text is read as exactly the number it denotes, with or without prefix and sign, if that is not too large |
| CallTrace.ParseTrace | crates/decoder/src/trace.rs:61-73 | parse, then flatten from depth 0; an error only from the root |
| CallTrace.RebuildInvertsFlatten | crates/decoder/src/trace.rs:174-202 | the depths alone determine the forest |
| CallTrace.ParseInvertsPrint | crates/decoder/src/trace.rs:104-171 | every call tree is parsed back from its JSON with its addresses lower-cased |
| CallTrace.AbsentSender | crates/decoder/src/trace.rs:111-115 | a call without a sender parses like one from the zero address |
| CallTrace.AbsentGas | crates/decoder/src/trace.rs:127-134 | a call whose gas is absent or no number up to u64 parses like one that used none |
| CallTrace.AbsentField | crates/decoder/src/trace.rs:104-149 | any other field that is not a string counts as absent |
| CallTrace.TraceRoundTrip | crates/decoder/src/trace.rs:61-73 | from the JSON of any call tree to the flat list and back from its depths: one tree of the same shape whose columns say, node by node, what the call tree says, addresses lower-cased |
| CallTrace.ParseIsParseOfPruned | crates/decoder/src/trace.rs:148-157 | malformed children are dropped with exactly their subtree, at every level; every other node yields one frame |
| CallTrace.DecimalValueOfHex | crates/decoder/src/trace.rs:176-185 | values are converted exactly up to u128 and become 0 above |
| TraceStore.InsertedTraceIsRead | crates/db/src/queries.rs:435-470 | a trace inserted once is listed unchanged whatever shares its batch |
| TraceStore.RootCauseIsFirstErrorOfTree | crates/db/src/queries.rs:634-652 | the first error row equals a recursive first-error search of the tree |
| TraceStore.RootCauseIsFirstRevertIff | crates/db/src/queries.rs:627-631 | it is the frame that reverted first exactly when no call below it failed |
| TraceStore.PassedOnRevertIsHidden | crates/db/src/queries.rs:627-631 | a failing caller with a failing callee: the caller is reported, the callee reverted first |
| TraceStore.InsertedAgain | crates/db/src/queries.rs:435-470 | inserting a stored trace again lists it once more |
| TraceStore.PageOfRepeatedTrace | crates/api/src/routes/failed_tx.rs:36-42 | a trace stored m times lists m copies of the call tree, m times as long; the root cause is the same |
| TraceStore.FlattenIsPreOrder | crates/decoder/src/trace.rs:174-202 | one root at its depth, every later frame deeper, depth rising by at most one |
| TraceStore.CallerExists | crates/decoder/src/trace.rs:174-202 | every frame but the root has its caller one level up before it |
| TraceStore.CutKeepsCallers | crates/api/src/routes/failed_tx.rs:36-41 | a cut list keeps the caller of every kept frame and rebuilds to one tree with the same root |
| TraceStore.CallTreePage | crates/api/src/routes/failed_tx.rs:36-42 | the page is the first 2000 frames, the flag says exactly whether frames were dropped, the root cause comes from the whole trace |
| TraceStore.PageOfStoredTrace | crates/api/src/routes/failed_tx.rs:36-42 | for a trace stored once: a rooted prefix, the whole tree if it fits, the root cause being the tree's first error |
| TypeList.SplitTopLevel | crates/decoder/src/abi.rs:169-189 | the one-pass loop equals `Split` |
| TypeList.JoinInvertsRawPieces | crates/decoder/src/abi.rs:169-189 | on every text the untrimmed pieces, joined, are the text |
| TypeList.SplitInvertsJoinIff | crates/decoder/src/abi.rs:162-168 | cutting a joined list gives it back exactly when no piece has a top-level comma and only the last may leave a parenthesis open |
| TypeList.TrimmedSplitInvertsJoinIff | crates/decoder/src/abi.rs:169-189 | the returned, trimmed split gives a joined list back exactly when besides that no piece is padded, the empty list included and the single empty text excluded |
| TypeList.TrimRemovesPadding | crates/decoder/src/abi.rs:181-187 | trimming removes exactly the padding of a piece |
| TypeList.SplitIgnoresPadding | crates/decoder/src/abi.rs:169-189 | a list is recovered from its text whatever whitespace surrounds its pieces |
| TypeList.SplitInvertsPrint | crates/decoder/src/abi.rs:162-168 | every list of types with nested tuples and arrays is recovered from its text |
| TypeList.ExtractMeaning | crates/decoder/src/abi.rs:153-160 | a list is found exactly when some `)` follows some `(`, and then is all between the first and the last |
| TypeList.SignatureRoundTrip | crates/decoder/src/abi.rs:150-189 | from `name(types)` back to the texts of the types |
| LabelPivot.FailedTxByLabelAggregate | crates/db/src/queries.rs:1354-1374 | the hash-map pivot, for any iteration order, is the front of a ranking of all groups by total, `limit` long if positive |
| LabelPivot.AnswerCountsFailures | crates/db/src/queries.rs:1354-1374 | the answer is sorted, no longer than asked, exact in every count; a failing contract is missing only if the answer is full of points at least as large |
| LabelPivot.GroupByConserves | crates/db/src/queries.rs:1334-1346 | the counts of any family of groups add up to its joined rows |
| LabelPivot.RankingCountsEveryFailure | crates/db/src/queries.rs:1310-1316 | totals add up to the joined rows; each point's categories sum to its total and are exact counts; no joined row is without a point |
| LabelPivot.TruncationKeepsTheLargest | crates/db/src/queries.rs:1371-1374 | the result is sorted and no dropped point is larger than a kept one |
| LabelPivot.AggregateCountsTheTables | crates/db/src/queries.rs:1334-1369 | before truncation: each point counts the failures of its labelled contract inside the filter, in all and per category, every contract with such a failure has a point, and the totals add up to all of them |
| LabelPivot.AnswerCountsTheTables | crates/db/src/queries.rs:1334-1374 | the answer against the tables: sorted, no longer than asked, every count exact; a contract with failures is missing only if the answer is full of points with at least as many |

## Left out

- RPC clients, retries, HTTP posting, DNS, the head subscription and the waiting between cycles: environment answers only.
- HMAC signing, hex decoding, payload building and the ABI value codec: library code or plain formatting.
- AlertDispatch.DeliveryLedger.DispatchItem: runs undisturbed from claim to record; interleavings with other workers, crashes and lateness are in `AlertOutbox`, whose steps use the same `TryClaim` and `Record`.
- Webhook URL and authentication checks: their verdict is an input of `DispatchItem`.
- Event decoding, error classification and the trigger that creates failed rows: not part of this model.
- Cancellation seen between two cycles: the list of cycles ends there.
- RateAlerts.PendingRateIff: the failures handed to the scan are those of the subscription's category and address; that join is the one of `PendingIff`.
- Process restarts: `Follow` ends at the first error, as the source does; a restart is the next cycle of a run.
- Convergence.SoundRunKeepsStore, ConvergesAfterAnySoundHistory, SoundCycleKeepsStore and IndexFromExtendsStore: exact tables, so without failed chunks and withheld answers; `MixedRuns`, `MixedConvergence` and `LostRows` treat those.
- FailedChunks.RunKeepsPartial: completeness, so with receipts and traces served; `LostRows` says what a withheld answer costs.
- MixedConvergence.ConvergesDespiteFailuresIff: histories in which receipts and traces are served.
- Rows without a block hash in the whole-run theorems: they are invisible to the scan.
- ChainDb.Database.IndexRange: requires the range to lie inside the node's chain; beyond its end the source's chunk fails, which is the `Fail` event.
- `ORDER BY` and `LIMIT` of the rate scan; the per-event scan's are in `IsBatch`, with hashes compared byte by byte.
- AlertDispatch.DispatchMetrics.DispatchOnce: how a task ends is an arbitrary input; what one task does to the ledger is `DispatchItem`.
- dispatch_rate_once: the same loop as `DispatchOnce` without the skipped outcome.
- CallTrace.ParseInvertsPrint: `ToLower` lower-cases ASCII only; addresses contain nothing else.
- CallTrace.FlattenCallFrame: depths are unbounded, the source's are `i32`.
- TypeList.SplitTopLevel: the parenthesis depth is unbounded, the source's is `i32`.
- LabelPivot.FailedTxByLabelAggregate: counts are unbounded, the source's are `i64`.
- Follow metrics: observation only.
- Terminal and web interfaces and example clients: they would add only easy members.
