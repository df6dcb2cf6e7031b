# A verified model of pocketPDS's write, sync and stream path

pocketPDS is a single-process AT Protocol personal data server. This project models, in Dafny, the
part of it whose correctness is a matter of whole runs: the repo manager, the firehose emitter, the
two-way bridge, the rate limiters, the paged listings and the log line splitter. `dafny verify
dfyconfig.toml` checks all of it.

The model keeps the program's form. What the program does to tables, maps and buffers in place is a
class or a method with a loop; each such method is proved to compute a function of the old state,
and the properties are lemmas about that function, over every input, every run or every
interleaving.

## What is modelled

**Repo manager** (`WriteBatch`, `OneAtATime`, `BatchLaws`, `Inversion`, `DeferredIndex`,
`StaleBatch`, `RepoState`, `RepoInvariant`, `RepoSteps`, `RepoRuns`, `RepoExport`, `RepoRejected`,
`RepoSingle`, `RepoStale`, `RepoAnyRun`, `RepoExample`, `Manager`). Per account there is a commit table whose head is the greatest rev, a
record index, and a block-to-rev table; all accounts share a write-once block store, a cache of open
repo handles, one recording window and one event log. A run is any interleaving of account creation,
batched writes, imports, deletions and restarts over any number of accounts. The results are:

- the invariant of clean runs: tree, index, block revs and cached handle of every account agree
  with its head, and every kept rev can be synced forward from;
- incremental sync is complete, and the event log is a faithful replica;
- a single write is refused exactly when plain rules about path, record and swapRecord say so, and a
  swapCommit write is let through exactly when it names the commit of the greatest rev;
- the lazily filled pending map of a batch refines running its operations one at a time, exactly
  when no operation makes use of a record key minted earlier in the batch;
- announced operations invert, exactly under the same proviso;
- the deferred index write agrees with the tree exactly when a path the batch deletes has a delete
  as its last operation;
- a rejected batch leaves the handle at the head plus the operations before the rejected one, a
  failed Commit leaves it at the head plus the whole batch, and coherence survives exactly when
  those operations cancel out;
- after an accepted write from a handle whose tree is not the head's, the exact conditions under
  which the export holds every block of the new head, the index holds its tree, and a consumer of
  the log accepts its event;
- in every run, clean or not, commits stay signed, every handle stands on its head row, exports
  succeed, and the since/prevData chain of the log is unbroken (which says nothing of the operations
  the events announce);
- exporting a repo and importing it into a cleared account gives the account back, exactly when
  its records convert to JSON; an import or an export fails exactly when one of the listed faults is
  there, and then has changed no row.

**Wire formats** (`RecordPath`, `CarFraming`, `Cbor`, `EventHeader`). CAR sections and event headers
are read back exactly from what is written, whatever follows; a head, a text, a header field is
accepted exactly when it is the canonical form of what is read; short ones are given byte by byte.

**Firehose** (`Firehose`, `FirehoseStream`, `FirehoseRuns`, `FirehoseEmitter`). Publishers, subscribers that register
before they replay, and bounded live channels, as atomic steps in any order. The stream is given
exactly, for the cursor asked for, whatever was dropped and wherever the replay failed, with the exact
condition under which nothing is missing from it; a subscriber can always catch up; numbers are taken
and kept as the rows show.

**Bridge** (`RecordJson`, `Bridge`, `BridgeSettles`, `BridgeCopies`). Two replicas and the rows of
`bridge_sync`; what a record looks like on the other side at every path, what exactly each direction
leaves and counts; from any starting point the third sync moves nothing, and the exact condition under
which the second one does not either.

**Limiters, paging, lines** (`TokenBucket`, `TokenGrants`, `SlidingWindow`, `TextOrder`, `Paging`, `BlobPaging`,
`LineWriter`).

## What is assumed

- The repo library (indigo) is seen through its answers. A tree operation (`TreeOut`) changes one
  path or fails without a change, and Puts the record it writes; a minted record key is new
  (`LibraryOk`), to the tree of the handle and, where the two differ, to the head. `Commit`
  (`CommitOk`) signs the handle's tree under a rev above the last one, and Puts every block of the
  new commit that the old one does not reach, except the record blocks that the tree operations
  Put. Opening a handle Puts nothing.
- CIDs are opaque. A `World` says what a CID stands for: the commit it holds, the records below a
  data root, the blocks of that tree, the blocks reachable from a commit, the bytes, and whether a
  record converts to JSON. A commit reaches itself, its tree and its records (`WorldOk`). The CAR
  reader checks blocks against their CIDs (`CarOk`).
- Revs are TIDs, fixed-width text of which only the order matters; they are natural numbers here.
- Collections are NSIDs and hold no "/" (the HTTP layer parses them). Record keys and DIDs are not
  empty where they are paged over: the empty cursor means "from the start".
- A single SQL statement succeeds. The exceptions are modelled: a missing head, a taken rev, a
  missing block, an unknown account, a failing blob deletion, a failing replay query, row or insert.
- Reads fall between operations. Exports take no lock (`internal/api/sync.go:50`), and a commit writes
  its row before it moves its blocks, one statement at a time (`internal/repo/manager.go:792-805`), so
  a reader can come in between; `ExportDuringCommit` says what it then gets.
- Time does not run backwards. Token counts are reals.
- During one bridge sync each side refuses the same records every time, whether they are created or
  put, the remote side stores what it is sent, records hold no blobs, and nobody else writes.

The assumptions about the library can be met: `RepoExample.CleanWriteExists` gives a world, a state and
a write of two records that meets all of them.

## Where a property fails

Each of these is kept as the code has it; the lemmas named give the exact condition or a concrete
input.

- A batch that deletes a path and then writes it again is accepted and committed, but its index row
  is lost: all upserts precede all deletes (`DeleteThenCreateLosesRow`, `DeferredIndexAgrees`).
- The comment on `ApplyWrites` (`internal/repo/manager.go:241-242`) calls a batch atomic. A batch
  rejected half-way leaves its earlier operations in the cached handle (`AbortLeavesRecord`,
  `RejectedBatchLeavesPrefix`), and one whose Commit fails, as when the signing key cannot be loaded
  (`internal/repo/manager.go:774-785`), leaves all of them (`FailedCommitLeavesBatch`). The next
  accepted write commits them. After it
  - the export holds every block of the new head exactly when each record of the committed tree was
    listed already or is Put by that write (`ExportStaysCompleteExactlyWhen`);
  - the index holds the new tree exactly when that write's deleted paths have a delete last, and it
    writes every path on which the handle differed from the head (`StaleWriteExactlyWhen`);
  - its event leads from the old head to the new one, and back, exactly when no operation names a key
    minted before it, and again the write covers every such path (`StaleWriteExactlyWhen`).
    Otherwise every consumer that stands at the old head refuses the event: the log is then not the
    replica that `LogIsFaithful` promises for clean runs. `ChainIsUnbroken` still holds, but is about
    since and prevData only.

  An aborted create followed by another create is worked out from any clean state
  (`AbortThenCreateBreaksExport`, `AbortThenCreateBreaksLog`) and on a concrete one
  (`BrokenExportExists`, `BrokenLogExists`).
- While a commit is being written, a full export can have the new head and not its blocks, and an
  export since an earlier rev can fall short of it (`ExportDuringCommit`).
- An operation that names a record key minted earlier in its batch is looked up in an index that
  does not have it yet (`MintedNameDiverges`, `AcceptedBatchInverts`). Such a batch can be accepted
  (`MintedNameIsAccepted`): a create without a key and then an update of the record it made announces
  two creates of the same record.
- An import succeeds when a block missing from its CAR happens to be in the shared store
  (`PartialCarIsAccepted`, `PartialImportExists`). The account is in order after an accepted import
  exactly when the CAR carries all its blocks and all its paths split (`AcceptedImportIsOkExactlyWhen`).
- A frame that finds a live channel full is dropped, though it is persisted. A drop before the
  replay query does no harm when the replay goes on to bring the frame. A drop after it is for good
  (`OverflowLosesFrame`, `MissedForGood`). When the replay query, or reading one of its rows, fails,
  the subscription goes live without the rest (`internal/firehose/firehose.go:146-161`), and rows
  persisted before the registration are lost to it (`FailedQueryLosesFrame`). The deduplicated stream
  of an open subscription is complete exactly when no row lies between the last number replayed and
  the registration, and no frame above that number was dropped; when nothing failed, exactly when
  no dropped frame is numbered above both the cursor and the replay query
  (`DeduplicatedStreamIsExact`).
- The second bridge sync publishes archived copies back, unless each one's local CID is among the
  published ones or the remote side refuses it (`SecondSyncIsQuietExactlyWhen`,
  `SecondArchiveIsQuietExactlyWhen`); `SecondSyncEchoes` is one such post.
- The blob listing takes its cursor from the row after the page, so a walk passes over every
  (limit+1)-th row (`WalkSkipsRows`, `WalkIsCompleteExactlyWhen`).
- A CBOR integer below the least int64 is read as another number, not refused
  (`NegativeReadsExactly`).
- Bucket cleanup can grant more than the limit when a bucket takes longer than ten minutes to fill
  (`TransparentExactlyWhen`), and a refused request, free otherwise, can then keep its bucket from a
  cleanup (`RefusalsAreFreeExactlyWhen`); the configured limiter is not of that kind.

## Model

| member | source | states |
|---|---|---|
| `RecordPath.CutUndoesPath` | internal/repo/import.go:66-69 | cutting a joined path at its first "/" gives back collection and rkey, when the collection holds no "/" |
| `RecordPath.PathUndoesCut` | internal/repo/import.go:66-66 | joining the two halves of any path with a separator gives the path back |
| `RecordPath.PathInjective` | internal/repo/manager.go:409-409 | two well-formed keys with the same pending-map path are the same key |
| `Manager.Blockstore.Get` | internal/db/blockstore.go:18-28 | finds the stored bytes, or that there are none |
| `Manager.Blockstore.Put` | internal/db/blockstore.go:30-35 | stores a new block and leaves a stored one as it is |
| `Manager.Blockstore.Has` | internal/db/blockstore.go:37-44 | true exactly for stored blocks |
| `Manager.RecordingBlockstore.Begin` | internal/repo/recording.go:37-41 | opens an empty window |
| `Manager.RecordingBlockstore.Put` | internal/repo/recording.go:25-35 | stores through, and notes the CID only inside a window, also for blocks already stored |
| `Manager.RecordingBlockstore.Drain` | internal/repo/recording.go:43-54 | closes the window and lists exactly the CIDs noted in it |
| `RepoState.MaxRev` | internal/repo/manager.go:573-586 | the head row: a rev of the table that no other exceeds |
| `Manager.RepoManager.constructor` | internal/repo/manager.go:40-49 | a new process over existing tables caches nothing and records nothing |
| `Manager.RepoManager.LibraryPuts` | internal/repo/recording.go:25-35 | a sequence of Puts adds the blocks not yet stored and notes all of them |
| `Manager.RepoManager.Open` | internal/repo/manager.go:735-763 | the cached handle, else one for an empty repo, else the one read from the head commit, which is then cached |
| `Manager.RepoManager.BatchRecordCid` | internal/repo/manager.go:408-419 | the pending entry if there is one, else the index row, which becomes pending |
| `Manager.Write` | internal/repo/manager.go:286-357 | what an accepted operation does to tree, pending map, queued index writes, announcements and answers |
| `Manager.RepoManager.ApplyOp` | internal/repo/manager.go:286-359 | one turn of the loop, with every rejection and what it leaves behind |
| `Manager.RepoManager.RunBatch` | internal/repo/manager.go:282-360 | the loop computes the batch function and stops at the first rejection |
| `Manager.RepoManager.WriteIndex` | internal/repo/manager.go:367-378 | all upserts of key and CID in order, then all deletes |
| `Manager.RepoManager.Commit` | internal/repo/manager.go:765-808 | new commit row, drained blocks moved to its rev, previous rev and data root returned; a taken rev or a failed signing leaves the rows alone |
| `Manager.MoveToRev` | internal/repo/manager.go:798-805 | every drained block gets the new rev, whatever it had |
| `Manager.RepoManager.WriteRepoCar` | internal/repo/car.go:16-39 | head as root and every selected block, or failure when there is no head or a block is missing |
| `Manager.RepoManager.EmitCommit` | internal/repo/manager.go:818-852 | one #commit event with the CAR since the previous rev, or nothing when the CAR cannot be built |
| `Manager.RepoManager.CreateAccount` | internal/repo/manager.go:164-195 | an empty commit, its event and the #identity event, stopping at a failed open, commit or CAR or an unknown account |
| `Manager.RepoManager.ApplyWrites` | internal/repo/manager.go:251-385 | a whole write takes the manager from state to state as the state machine says: rejected before, during or after the loop, or committed, indexed and announced |
| `Manager.RepoManager.Finish` | internal/repo/manager.go:362-384 | commit, index write, event, in that order, stopping at a failed commit or CAR |
| `Manager.RepoManager.ImportRepo` | internal/repo/import.go:22-134 | blocks stored first, then every check and the walk, then the rows replaced and the handle dropped |
| `Manager.RepoManager.StoreCar` | internal/repo/import.go:35-48 | every block of the CAR is stored and listed |
| `Manager.RepoManager.WalkRecords` | internal/repo/import.go:64-82 | the index rows of a tree, each path cut at its first "/", those with an empty half skipped; fails exactly when a tree block or an indexed record is missing or a record does not convert |
| `Manager.BuildRows` | internal/repo/import.go:95-126 | one commit row, the walked records, and every block of the CAR at the imported rev |
| `Manager.RepoManager.DeleteAccount` | internal/repo/manager.go:128-147 | the handle goes even when blob removal fails; otherwise the rows go too |
| `BatchLaws.StepSeesTree` | internal/repo/manager.go:408-419 | a lookup through the pending map sees the tree, and one turn keeps it so: same verdict, same change, same announcement as on the tree alone |
| `BatchLaws.OverlayRefinesOneAtATime` | internal/repo/manager.go:282-360 | from index = tree, a batch fails at the same operation with the same error or yields the same tree, announcements (Prev included) and answers as one-at-a-time execution, if and only if minted keys are used harmlessly |
| `BatchLaws.AvoidingMintedIsHarmless` | internal/repo/manager.go:289-297 | in particular whenever no operation names a key minted earlier in the batch |
| `BatchLaws.MintedNameDiverges` | internal/repo/manager.go:289-297 | the first operation that names a minted path makes the two runs part, unless both refuse it |
| `BatchLaws.RunOpsExtends` | internal/repo/manager.go:277-278 | a batch only appends to what it announces and answers, one answer per accepted operation |
| `BatchLaws.ResultsMatchOps` | internal/repo/manager.go:286-356 | answer i belongs to operation i: its action, the rkey given or minted, the record's CID |
| `Inversion.AnnounceInverts` | internal/repo/manager.go:294-356 | a truthful announcement replays forward and undoes back |
| `Inversion.AcceptedBatchInverts` | internal/repo/manager.go:286-360 | operation inversion: replaying the announcements gives the new tree and undoing them the old one, each if and only if no operation names a minted path |
| `Inversion.MintedNameIsAccepted` | internal/repo/manager.go:289-337 | a create without an rkey and then an update of the record it made is accepted and meets the library contract; it announces two creates of one record, which lead neither forward nor back |
| `DeferredIndex.TrackRun` | internal/repo/manager.go:279-360 | what the batch has queued against its tree, for every key, after every operation |
| `DeferredIndex.DeferredIndexAgrees` | internal/repo/manager.go:367-378 | after an accepted batch the index is the committed tree if and only if the last operation on every deleted path is a delete |
| `RepoRejected.DeleteThenCreateLosesRow` | internal/repo/manager.go:367-378 | deleting and re-creating any record in one batch is accepted and loses its index row |
| `RepoInvariant.OpensAtHead` | internal/repo/manager.go:735-763 | with the invariant, opening succeeds, cached or not, and finds the head's tree and commit |
| `RepoInvariant.RunValues` | internal/repo/recording.go:25-35 | every record of the new tree was in the old one or was Put during the batch |
| `RepoSteps.CommittedHead` | internal/repo/manager.go:792-796 | a later rev becomes the head |
| `RepoSteps.SinceIsDrained` | internal/repo/manager.go:590-616 | after a commit the blocks selected since the previous head are exactly those drained |
| `RepoSteps.SyncStep` | internal/repo/manager.go:798-805 | reaching forward from any kept rev survives a commit, dropped and re-put blocks included |
| `RepoSteps.CommitKeepsSync` | internal/repo/manager.go:765-808 | a commit whose window covered its new blocks keeps every kept rev syncable |
| `RepoSteps.CommitKeepsAccount` | internal/repo/manager.go:765-808 | and keeps the account in order once the index holds the tree |
| `RepoSteps.FinishKeeps` | internal/repo/manager.go:362-384 | commit, index write and event of a ready batch: invariant kept, result and event spelled out |
| `RepoSteps.CleanWriteKeeps` | internal/repo/manager.go:251-385 | a clean write keeps the invariant and either commits, moves only its account and announces the truth, or leaves all rows and the log alone |
| `RepoSteps.EventCarIsDrained` | internal/repo/manager.go:818-822 | the event's CAR holds exactly the blocks Put between Begin and Drain |
| `RepoSteps.CreateIsEmptyWrite` | internal/repo/manager.go:164-195 | creating an account is an empty write followed by #identity |
| `RepoSteps.ImportedIndexIs` | internal/repo/import.go:64-82 | the imported index is the tree if and only if every path splits into two non-empty halves |
| `RepoSteps.ImportedRowsOk` | internal/repo/import.go:95-126 | imported rows are in order, incremental sync included, if and only if the CAR is complete |
| `RepoSteps.ImportKeepsInv` | internal/repo/import.go:22-134 | a complete import keeps the invariant however it ends, and moves no other account |
| `RepoSteps.DeleteKeepsInv` | internal/repo/manager.go:128-147 | deletion keeps the invariant, also when it stops half-way, and succeeds if and only if the blobs could be removed |
| `RepoSteps.DeleteDoes` | internal/repo/manager.go:128-147 | the handle goes in any case, the rows if and only if blob removal succeeded; no block and no other account is touched |
| `RepoRuns.StepKeepsAll` | internal/repo/manager.go:128-385 | one clean step of any kind keeps the invariant, every commit row and every follower of the log, for every account it does not reset |
| `RepoRuns.CleanRunKeepsInv` | internal/repo/manager.go:25-38 | the invariant holds in every state of every clean run |
| `RepoRuns.CleanRunFromNothing` | internal/repo/manager.go:735-763 | from an empty database: every cached handle is what open would rebuild after a restart, and every repo can be exported |
| `RepoRuns.LogIsFaithful` | internal/repo/manager.go:818-852 | a consumer that checks since, prevData and operation inversion accepts every event and ends with the head, its records and all its blocks |
| `RepoRuns.IncrementalSyncIsComplete` | internal/repo/manager.go:590-616 | the blocks of any earlier head with the CAR since its rev cover every block of the current head |
| `RepoRuns.FollowAppend` | internal/repo/manager.go:835-847 | following a log is following its parts one after the other |
| `RepoExport.ExportIsComplete` | internal/repo/car.go:16-39 | a full export succeeds and is a complete CAR rooted at the head |
| `RepoExport.ImportSucceeds` | internal/repo/import.go:35-82 | a complete CAR of the account is accepted if and only if every record converts |
| `RepoExport.ExportThenImport` | internal/repo/import.go:22-134 | the full CAR imported over any other state is accepted if and only if every record converts, and then restores head, index and block set, exports again unchanged, and re-establishes the invariant |
| `RepoExport.ImportFailsExactlyWhen` | internal/repo/import.go:22-82 | an import fails with each fault exactly when that fault is the first there is: not one root, a broken CAR, no commit at the root, another account, a missing block or a record that does not convert; it then has at most added blocks |
| `RepoExport.ImportReplaces` | internal/repo/import.go:95-134 | otherwise the account has the CAR's one commit and its blocks at that rev, no handle, and no other account is touched |
| `RepoExport.ExportFailsExactlyWhen` | internal/repo/car.go:16-39 | an export fails if and only if there is no commit or a selected block is not stored, and holds the stored bytes of exactly the blocks selected |
| `RepoRejected.RunEachPrefix` | internal/repo/manager.go:286-360 | a run that is refused has done exactly the operations before the refused one |
| `RepoRejected.RejectedBatchLeavesPrefix` | internal/repo/manager.go:286-360 | a batch rejected at operation i, whatever it names, changes no row and no event, leaves the handle where its operations 0..i-1 alone lead, and is coherent if and only if those cancel out |
| `RepoRejected.RejectedBatchRanEach` | internal/repo/manager.go:286-360 | where no operation names a minted key, the operations before the rejected one did what running them one at a time does |
| `RepoRejected.FailedCommitLeavesBatch` | internal/repo/manager.go:765-785 | a batch accepted whole whose Commit fails changes no row and no event, and leaves every one of its operations in the handle; coherent if and only if they cancel out |
| `RepoRejected.TakenRevIsRefused` | internal/repo/manager.go:786-796 | a commit whose rev has a row already is refused: no row and no event, but the handle has signed it |
| `RepoRejected.SwapCommitDecides` | internal/repo/manager.go:260-268 | once the repo opens, a write with swapCommit is refused for it if and only if it does not name the commit of the greatest rev (or the empty string where there is none); then only the cache has changed, otherwise the write is the one without swapCommit |
| `RepoRejected.OpenFailsExactlyWhen` | internal/repo/manager.go:735-763 | a repo fails to open if and only if it is not cached and the commit block of the greatest rev is missing or no commit |
| `RepoSingle.OneOperation` | internal/repo/manager.go:286-357 | one operation against the records there are: exactly when it is refused and for what, and otherwise the record at its path, no other path touched, the announcement and the answer |
| `RepoSingle.SingleWriteDoes` | internal/repo/manager.go:226-239 | a single write from any state of a clean run: refused exactly by those rules, failed exactly when Commit fails, otherwise in the head, in the index, in the event and in the answer |
| `RepoRejected.ExportDuringCommit` | internal/repo/manager.go:792-805 | with the commit row written and part of the blocks moved: the new head is exported, a full export is complete if and only if all its blocks were listed before or are among those moved, and likewise an export since an earlier rev |
| `RepoRejected.RejectedSingleWriteIsCoherent` | internal/repo/manager.go:226-239 | a rejected single write keeps the invariant |
| `RepoStale.AbortLeavesRecord` | internal/repo/manager.go:304-344 | from any state of a clean run, a create and then a failing delete: refused, no row and no event changed, but the record stays in the handle |
| `RepoExample.CleanWriteExists` | internal/repo/manager.go:251-385 | the assumptions about the library and the conditions of a clean run are met by a concrete write of two records, which commits |
| `RepoExample.CleanRunExists` | internal/repo/manager.go:251-385 | so clean runs with a commit in them exist |
| `StaleBatch.RunKeepsOff` | internal/repo/manager.go:286-378 | operations that keep off a path leave its record and its index row alone |
| `StaleBatch.RunAlike` | internal/repo/manager.go:282-360 | an accepted batch queues, announces and answers the same on any two trees, which end equal at a path if and only if they were equal there or it was written |
| `StaleBatch.StaleIndexAgreesExactlyWhen` | internal/repo/manager.go:367-378 | after an accepted batch on any tree, the index holds the resulting tree if and only if deleted paths have a delete last and the batch writes wherever that tree differed from the indexed one |
| `StaleBatch.StaleBatchInvertsExactlyWhen` | internal/repo/manager.go:286-360 | the announcements of an accepted batch on any tree lead from the head to the result, and back, each if and only if no operation names a minted path and the batch writes wherever the tree differed from the head |
| `RepoStale.AcceptedWrite` | internal/repo/manager.go:251-385 | an accepted write ends the same way whatever tree its handle held: commit row, drained blocks, index write and event spelled out |
| `RepoStale.ExportStaysCompleteExactlyWhen` | internal/repo/manager.go:735-808 | after any accepted write, from a handle with any tree, the full export holds every block of the new head if and only if each record of the committed tree was listed already or was Put by this write |
| `RepoStale.StaleHandleBreaksSync` | internal/repo/manager.go:735-808 | in particular a stray record that is left alone and not Put again is committed with no index row and no block rev |
| `RepoStale.StaleWriteExactlyWhen` | internal/repo/manager.go:270-385 | any accepted write from a handle with any tree: it commits that tree, and index, event forward, event back, and acceptance by a consumer at the old head each hold if and only if the batch covers the difference (and deletes last, or names no minted key) |
| `RepoStale.AbortThenCreateBreaksExport` | internal/repo/manager.go:270-385 | from any state of a clean run, an aborted create and then another create: both are committed, and the export is complete if and only if the first block was listed before or is Put again |
| `RepoStale.AbortThenCreateBreaksLog` | internal/repo/manager.go:270-385 | from any state of a clean run, after those two writes the index does not hold the head, and every consumer at the old head refuses the event |
| `RepoExample.BrokenExportExists` | internal/repo/manager.go:270-385 | on a concrete repo those two writes leave an export that lacks a block of its own head |
| `RepoExample.BrokenLogExists` | internal/repo/manager.go:270-385 | the same two writes on a concrete repo |
| `RepoRejected.AcceptedImportIsOkExactlyWhen` | internal/repo/import.go:95-126 | an accepted import leaves the account in order if and only if its CAR was complete |
| `RepoRejected.PartialCarIsAccepted` | internal/repo/import.go:35-82 | a CAR that lacks blocks the shared store holds is accepted, and the account's own export lacks them again |
| `RepoExample.PartialImportExists` | internal/repo/import.go:35-82 | a concrete CAR of that kind |
| `RepoAnyRun.AnyWriteChains` | internal/repo/manager.go:251-385 | any write meeting the library contract either commits and announces a commit that follows the head, or leaves rows and log alone |
| `RepoAnyRun.AnyRunKeepsLoose` | internal/repo/manager.go:25-38 | in every state of every run, clean or not: commits signed, block revs kept revs of stored blocks, every handle on its head row, every export successful |
| `RepoAnyRun.ChainIsUnbroken` | internal/repo/manager.go:765-852 | over every run without import or deletion of the account, each #commit event's since and prevData name the commit of the one before |
| `RepoAnyRun.AnyRunFromNothing` | internal/repo/manager.go:765-852 | from an empty database, after every run: exports succeed, and the whole log chains the account's commits from none to its head |
| `CarFraming.UvarintRoundTrip` | internal/repo/car.go:76-77 | every 64-bit length is read back from its uvarint, whatever follows, in at most ten bytes |
| `CarFraming.UvarintSelfDelimits` | internal/repo/car.go:76-77 | a readable uvarint reads the same whatever follows it |
| `CarFraming.SectionBytes` | internal/repo/car.go:75-88 | the bytes of a section: the length of CID and data together in seven-bit groups, low first, then both |
| `CarFraming.CidSelfDelimits` | internal/repo/car.go:81-83 | a CID says where it ends |
| `CarFraming.SectionRoundTrip` | internal/repo/car.go:75-88 | one section is read back with exactly what follows it left over |
| `CarFraming.FramingRoundTrip` | internal/repo/car.go:29-37 | any list of blocks is read back exactly |
| `CarFraming.PutUvarint` | internal/repo/car.go:76-77 | fills the front of a ten-byte buffer with the uvarint |
| `CarFraming.WriteCarBlock` | internal/repo/car.go:75-88 | appends exactly one section |
| `CarFraming.WriteCarBlocks` | internal/repo/car.go:29-37 | appends the sections of all blocks in order |
| `Cbor.BigEndianRoundTrip` | internal/firehose/firehose.go:46-46 | a k-byte big-endian argument is read back |
| `Cbor.HeadRoundTrip` | internal/admin/api_events.go:141-141 | every head (major type and 64-bit argument) is read back, and the canonical form is the one accepted |
| `Cbor.TextRoundTrip` | internal/admin/api_events.go:152-158 | every text string within the limit is read back |
| `Cbor.HeadReadExactlyWhen` | internal/admin/api_events.go:141-141 | a head is read if and only if it stands at the front in its shortest form |
| `Cbor.TextReadExactlyWhen` | internal/admin/api_events.go:152-158 | a text is read if and only if it stands at the front and is within the limit |
| `EventHeader.Wrap` | internal/admin/api_events.go:184-184 | int64 arithmetic: in range, and congruent modulo 2^64 |
| `EventHeader.Unsigned` | internal/firehose/firehose.go:70-74 | the uint64 conversion: in range, and congruent modulo 2^64 |
| `EventHeader.IntRoundTrip` | internal/admin/api_events.go:172-188 | every int64 is read back, the least one included, whose negation wraps |
| `EventHeader.NegativeReadsExactly` | internal/admin/api_events.go:183-184 | a negative head is read as the integer it stands for if and only if that fits an int64 |
| `EventHeader.HeaderRoundTrip` | internal/admin/api_events.go:140-170 | the header of any op and any type within the length limit, empty included, is read back and exactly the suffix is left |
| `EventHeader.HeaderBytes` | internal/firehose/firehose.go:40-79 | the bytes of a header with a small op and a type of at most 23 bytes, literally |
| `EventHeader.FieldReadExactlyWhen` | internal/admin/api_events.go:151-168 | a field is read if and only if it is "t" with a text or "op" with an integer |
| `EventHeader.HeaderReadExactlyWhen` | internal/admin/api_events.go:140-151 | a header is read if and only if a map of n pairs stands at the front and n fields are read after it |
| `EventHeader.EmptyHeader` | internal/admin/api_events.go:149-150 | a header without fields means op 1 and no type |
| `EventHeader.PutHeader` | internal/firehose/firehose.go:40-79 | appends the header, without the type field for an empty type |
| `EventHeader.Reader.NextInt` | internal/admin/api_events.go:172-188 | the integer and the rest, or refusal |
| `EventHeader.Reader.NextField` | internal/admin/api_events.go:151-168 | one key and its value; an unknown key is refused |
| `EventHeader.Reader.NextHeader` | internal/admin/api_events.go:140-170 | as many fields as the map head says, in any order, the later value of a repeated key winning |
| `Firehose.ReceivedGrows` | internal/firehose/firehose.go:123-128 | what a channel received grows by the published frame exactly when the subscription is open and has room |
| `Firehose.OfferKeeps` | internal/firehose/firehose.go:123-128 | a publication reaches the channel of every open subscription that has room, and the replay of none |
| `Firehose.StepKeepsInv` | internal/firehose/firehose.go:104-182 | every step of every publisher and subscriber keeps the invariant |
| `Firehose.RunKeepsInv` | internal/firehose/firehose.go:104-182 | so does every interleaving |
| `FirehoseStream.StreamHasNoGaps` | internal/firehose/firehose.go:132-182 | a live stream is a prefix of the frames with cursor < seq <= the replay query's, all of them unless the replay failed, then those after registration that found room, in order; with no failure and no drop there is no gap |
| `FirehoseStream.DeduplicatedStreamIsExact` | internal/firehose/firehose.go:132-182 | for every live subscription, its replay failed or not: keeping only seqs above the running maximum gives each persisted frame above the cursor once, in order, if and only if no row lies between the last number replayed and the registration and no frame above that number was dropped; what is kept is given in every case |
| `FirehoseStream.DuplicatesAreExact` | internal/firehose/firehose.go:138-146 | how often each frame comes, failed replays included: once if the replay got to it, and once if received, so twice at most |
| `FirehoseStream.KeepStream` | internal/firehose/firehose.go:144-174 | the deduplication law on any numbered table, any part of a replay and any dropped frames |
| `FirehoseStream.KeptIsAll` | internal/firehose/firehose.go:144-174 | the same as an if-and-only-if: all rows are kept exactly when none lies in the gap and none above the replayed part was dropped |
| `FirehoseStream.MissedForGood` | internal/firehose/firehose.go:146-173 | a subscription past its replay query never gets a frame it holds nowhere, over every run |
| `FirehoseStream.DroppedIsReplayed` | internal/firehose/firehose.go:146-161 | a dropped frame is in the stream if and only if the replay got to it |
| `FirehoseStream.OverflowLosesFrame` | internal/firehose/firehose.go:123-128 | a frame published while the channel is full is persisted, and over every run reaches the reader if and only if the replay query was still to come, the frame is above the cursor, and the replay, if it failed, had got to it |
| `FirehoseStream.FailedQueryLosesFrame` | internal/firehose/firehose.go:146-150 | one persisted frame and a subscriber from the start whose query fails: live, nothing dropped, and the stream lacks the frame |
| `FirehoseRuns.SubscribeStarts` | internal/firehose/firehose.go:134-142 | a new subscription stands at the cursor asked for and at the last number taken, and no other one notices |
| `FirehoseRuns.RunKeepsStart` | internal/firehose/firehose.go:134-182 | no step of any run changes a subscription's cursor or where it registered |
| `FirehoseRuns.SubscriberStreamIsExact` | internal/firehose/firehose.go:132-182 | whoever subscribes at a cursor, in the middle of any run, gets the stream of that cursor: in place, and exact under the stated condition |
| `FirehoseRuns.FailsOnlyThen` | internal/firehose/firehose.go:146-161 | over every run a subscription counts as failed only if its query or one of its rows failed |
| `FirehoseRuns.FailingGoesLive` | internal/firehose/firehose.go:146-163 | a failed replay goes live, with the reader still there and its channel as it was |
| `FirehoseRuns.CatchesUp` | internal/firehose/firehose.go:144-174 | after any history, a subscriber whose query and rows succeed can go on until it has every persisted frame above its cursor, in order, and then all that waited |
| `FirehoseRuns.CancelEnds` | internal/firehose/firehose.go:155-172 | a reader that is done is sent nothing more, over every run |
| `FirehoseRuns.CleanupEnds` | internal/firehose/firehose.go:176-180 | a channel that was removed gets nothing more, over every run |
| `FirehoseRuns.NumbersAreTaken` | internal/firehose/firehose.go:104-121 | every publication that can be built takes the next number, also when its insert fails, and one that cannot takes none; the rows are the persisted ones |
| `FirehoseRuns.RowOf` | internal/firehose/firehose.go:104-121 | the place, number and body of the row of any one persisted publication in any run |
| `FirehoseRuns.RoomFor4096` | internal/firehose/firehose.go:123-128 | a frame is dropped if and only if 4096 are waiting |
| `FirehoseEmitter.Broadcast` | internal/firehose/firehose.go:123-128 | every registered channel is offered the frame, none twice |
| `FirehoseEmitter.Emitter.constructor` | internal/firehose/firehose.go:91-99 | numbering goes on from the greatest persisted number, from 0 without rows |
| `FirehoseEmitter.Emitter.Publish` | internal/firehose/firehose.go:104-130 | takes a number, gives it back when the frame cannot be built, keeps it when the insert fails, else persists and broadcasts |
| `FirehoseEmitter.Emitter.Subscribe` | internal/firehose/firehose.go:132-142 | registers an empty channel under a new id |
| `FirehoseEmitter.Emitter.Query` | internal/firehose/firehose.go:146-161 | the rows above the cursor in order; a failed query goes live without them |
| `FirehoseEmitter.Emitter.Advance` | internal/firehose/firehose.go:147-173 | one row, or the end of the replay, after the last row or when a row fails, or one live frame |
| `FirehoseEmitter.Emitter.Cancel` | internal/firehose/firehose.go:155-157 | a reader that is done is sent nothing more |
| `FirehoseEmitter.Emitter.Cleanup` | internal/firehose/firehose.go:176-180 | the channel gets nothing more; a second call changes nothing |
| `RecordJson.TextThereAndBack` | internal/bridge/record.go:32-33 | replacing a prefix there, back and there again is replacing it there once, for any two prefixes |
| `RecordJson.ThereAndBack` | internal/bridge/record.go:22-43 | the same for whole records: f(g(f(j))) = f(j) |
| `Bridge.ArchivePosts` | internal/bridge/bridge.go:236-265 | archiving changes neither the remote records nor what counts as published |
| `Bridge.Service.RunPublish` | internal/bridge/bridge.go:181-223 | publishes and counts exactly the unsynced records that are taken, then marks them; a profile is also created as a record of its own first |
| `Bridge.Service.RunArchive` | internal/bridge/bridge.go:225-289 | archives and counts exactly the unsynced records that are taken, under their own rkey, then marks them |
| `Bridge.Service.Sync` | internal/bridge/bridge.go:139-143 | publish, then archive what is there after publishing |
| `BridgeSettles.EchoIsSame` | internal/bridge/record.go:22-43 | an archived record taken to the other side and back is itself |
| `BridgeSettles.PublishDoes` | internal/bridge/bridge.go:181-223 | publishing leaves nothing publishable, adds only rewritten local records, and counts 0 if and only if nothing was publishable |
| `BridgeSettles.ArchiveDoes` | internal/bridge/bridge.go:225-289 | the same for archiving |
| `BridgeSettles.TwoSyncsAreEnough` | internal/bridge/bridge.go:115-144 | after two syncs nothing is left to publish or to archive |
| `BridgeSettles.ThirdSyncIsQuiet` | internal/bridge/bridge.go:115-144 | from any contents and any sync rows the third sync publishes 0, archives 0 and changes nothing |
| `BridgeSettles.SecondSyncIsQuietExactlyWhen` | internal/bridge/bridge.go:115-144 | from any contents and any sync rows the second sync publishes 0 if and only if every record the first archived anew is published already or refused remotely, and archives 0 if and only if the same holds the other way round for what it published |
| `BridgeSettles.SecondArchiveIsQuietExactlyWhen` | internal/bridge/bridge.go:225-289 | told from the state the second sync starts in: it archives 0 if every record it is about to publish comes out as one archived already or refused locally; and only if, when minted rkeys are new and no two local records share a CID |
| `BridgeSettles.SecondSyncEchoes` | internal/bridge/bridge.go:181-223 | two syncs can be needed: the copy of a post archived by the first is published back by the second |
| `BridgeCopies.PublishedAt` | internal/bridge/record.go:22-43 | a published record, at every path: a field that refers to the local repo refers to the same place in the remote one, every other string is kept, also those in arrays, objects keep their keys and arrays their length |
| `BridgeCopies.ArchivedAt` | internal/bridge/record.go:22-43 | an archived record, the other way round |
| `BridgeCopies.FieldIsRedirected` | internal/bridge/record.go:30-35 | in particular "at://local/tail" in a field becomes "at://remote/tail", and back |
| `BridgeCopies.ArchiveLeaves` | internal/bridge/bridge.go:225-289 | the local posts after archiving, the profile, the rows and the count, exactly |
| `BridgeCopies.ArchiveLeavesExactly` | internal/bridge/bridge.go:236-265 | rkey by rkey: kept if there is no remote post that arrives, otherwise the copy of that post, where those that arrive have different CIDs; the count is how many they are |
| `BridgeCopies.PublishLeaves` | internal/bridge/bridge.go:181-223 | every remote post is kept, and exactly the copies of those sent are added, each under an rkey of its own; profile, rows and count exactly |
| `BridgeCopies.SentStandForAll` | internal/bridge/bridge.go:199-222 | those sent stand for all that depart, one for each CID |
| `TokenBucket.TokensStayInRange` | internal/server/ratelimit.go:43-53 | tokens stay in [0, burst] over every history, with or without cleanup |
| `TokenBucket.BoundWithoutGc` | internal/server/ratelimit.go:32-55 | acceptances in [s, t] number at most burst + rate * (t - s) |
| `TokenBucket.GcIsTransparent` | internal/server/ratelimit.go:57-69 | with 600 * rate >= burst every verdict is what it would be without cleanup |
| `TokenBucket.BucketBound` | internal/server/ratelimit.go:32-69 | the bound with cleanups at any moments |
| `TokenBucket.TransparentExactlyWhen` | internal/server/ratelimit.go:57-69 | cleanup is transparent for every history if and only if 600 * rate >= burst or no bucket can ever grant a request |
| `TokenBucket.ConfiguredLimiterIsBounded` | internal/server/server.go:39-39 | the configured limiter (5, 10): transparent cleanup, at most 10 + 5 * (t - s) acceptances |
| `TokenBucket.CleanupLeaves` | internal/server/ratelimit.go:57-69 | a cleanup in second zero leaves exactly the buckets of keys asked for within ten minutes, unchanged; in any other second all |
| `TokenGrants.GrantedExactlyWhen` | internal/server/ratelimit.go:32-55 | told from the acceptances alone: a request is granted if and only if, back to every moment s, it and the acceptances of its key since s number at most burst + rate * (now - s) |
| `TokenGrants.GrantedWithCleanup` | internal/server/ratelimit.go:32-69 | the same with cleanups, where 600 * rate >= burst |
| `TokenGrants.RefusedIsFree` | internal/server/ratelimit.go:51-53 | leaving a refused request out of a history changes no other verdict |
| `TokenGrants.RefusalsAreFreeExactlyWhen` | internal/server/ratelimit.go:32-69 | with cleanups that holds for every history if and only if 600 * rate >= burst or no bucket can ever grant a request |
| `TokenGrants.ConfiguredLimiterGrants` | internal/server/server.go:39-39 | both for the configured limiter (5, 10) |
| `TokenBucket.RateLimiter.TryTake` | internal/server/ratelimit.go:32-55 | one request: the new bucket of its key, every other untouched, and the verdict |
| `TokenBucket.RateLimiter.Collect` | internal/server/ratelimit.go:58-69 | in the first second of a minute drops exactly the buckets idle for more than ten minutes |
| `SlidingWindow.StoredStandsForAll` | internal/admin/admin.go:271-281 | the stored hits, cut at any later cutoff, are all accepted calls cut there |
| `SlidingWindow.WindowIsExact` | internal/admin/admin.go:265-283 | a call is accepted if and only if fewer than limit accepted calls of its key lie in (now - window, now] |
| `SlidingWindow.NoWindowHoldsMore` | internal/admin/admin.go:265-283 | no half-open interval as long as the window holds more than limit acceptances |
| `SlidingWindow.Compact` | internal/admin/admin.go:271-276 | compaction through the shared backing array leaves exactly the times after the cutoff, in order |
| `SlidingWindow.Append` | internal/admin/admin.go:281-281 | the time is added at the end, in place or in a larger array |
| `SlidingWindow.RateLimiter.TryEnter` | internal/admin/admin.go:265-283 | verdict and stored hits of the key, every other key's untouched although arrays are updated in place |
| `TextOrder.Total` | internal/repo/manager.go:467-467 | the key order is total |
| `TextOrder.Transitive` | internal/repo/manager.go:467-467 | and transitive |
| `TextOrder.FirstDifferenceDecides` | internal/repo/manager.go:467-467 | the smaller text is the one with the smaller first differing character, or a proper prefix of the other |
| `Paging.First` | internal/repo/manager.go:467-467 | the first key of a set in either direction |
| `Paging.InOrder` | internal/repo/manager.go:467-467 | lists every key once |
| `Paging.PageFacts` | internal/repo/manager.go:460-500 | a page is sorted, within the limit, beyond the cursor, and what it leaves is beyond the next cursor |
| `Paging.PageRuns` | internal/repo/manager.go:460-500 | by the characters of its keys an ascending page rises and lies after the cursor, and a descending one falls and lies before it |
| `Paging.WalkNeverRepeats` | internal/repo/manager.go:460-544 | following cursors never returns a key twice, however the table changes, in either direction |
| `Paging.WalkIsComplete` | internal/repo/manager.go:460-544 | a walk that ended returned every row present at each of its requests |
| `Paging.WalkIsSound` | internal/repo/manager.go:646-720 | every key returned was in the table at one of the requests |
| `Paging.PagesForIsCeiling` | internal/repo/manager.go:493-498 | the number of pages is n / limit rounded up, at least one |
| `Paging.FixedWalk` | internal/repo/manager.go:646-720 | on a fixed table a walk returns every row once, in order, in exactly that many pages |
| `Paging.ListPage` | internal/repo/manager.go:470-499 | the page as it is read, with the last kept key as cursor |
| `BlobPaging.WalkSkipsRows` | internal/blob/blob.go:110-155 | a walk over a fixed table returns every row except those at positions congruent to limit modulo limit + 1 |
| `BlobPaging.WalkIsCompleteExactlyWhen` | internal/blob/blob.go:149-153 | so it is complete if and only if one page is enough |
| `BlobPaging.List` | internal/blob/blob.go:110-155 | one page, with the last scanned row's stamp as cursor |
| `LineWriter.SplitIsRight` | internal/tunnel/tunnel.go:248-257 | the split of a stream is its newline-terminated lines, empty ones dropped, and the text after the last newline |
| `LineWriter.LineFeedEnds` | internal/tunnel/tunnel.go:248-257 | a line is ended by byte 10 |
| `LineWriter.Writer.Write` | internal/tunnel/tunnel.go:244-259 | after any write, what is logged and kept is the split of everything written so far |
| `LineWriter.WriteAll` | internal/tunnel/tunnel.go:244-259 | however a stream is cut into writes, the outcome is that of the whole stream |

## Left out

- RecordJson.Rewrite: works on values; that the program rewrites nested maps in place, and the aliasing this allows, is not modelled.
- RepoSteps.CleanWriteKeeps: speaks of clean writes only; what unclean ones do is said by the lemmas of RepoRejected and RepoAnyRun and by the conditions of DeferredIndex and BatchLaws.
- RepoRuns.LogIsFaithful: an event that cannot be persisted is not modelled here, only in the firehose.
- Manager.RepoManager.WriteIndex: the JSON text stored beside each record CID is not modelled, nor a failing statement.
- Manager.RepoManager.EmitCommit: does not model an event that cannot be marshalled or inserted; after a commit the code has no way back from that.
- Manager.RepoManager.CreateAccount: does not model the same failure of its two events.
- Manager.RepoManager.Finish: does not model a failing index statement or event after the commit, for which the code uses no transaction.
- Manager.RepoManager.ApplyWrites: does not model those failures either.
- Manager.RepoManager.ImportRepo: its transaction is one step; a failing statement, which rolls it back, is not modelled.
- Manager.RepoManager.WalkRecords: models whether a record converts to JSON, not the text it converts to.
- FirehoseEmitter.Emitter.Advance: the reader's own channel is taken as the sequence of all frames sent to it; that a send waits when it is full is a delay, not modelled.
- Bridge.Service.RunPublish: records hold no blobs, so none is uploaded; the 100000-record cap on the local listing is not modelled.
- Bridge.Service.RunArchive: records hold no blobs, so none is copied; paging and failures of the remote side are not modelled.
- BlobPaging.WalkSkipsRows: for a table that does not change, as creation stamps only grow; rows that come and go between pages are not modelled.
- Several SQL statements cut short by a crash.
- The internals of indigo (tree layout, signing, the TID clock), go-car's header and reader, CBOR bodies, hashing and SQLite.
- The #account and handle-change events, relay notification, and the order of events of different origin in one log.
- The other columns of the repo listings and the joins behind them: only the keys and cursors are modelled.
- Single-block and rootless CARs, which would add only easy members.
- HTTP handlers, request parsing, sessions, invites, email, settings, migrations, the AppView proxy, tunnel supervision and the admin pages.
- Rounding of floating-point tokens, and clocks that jump.
