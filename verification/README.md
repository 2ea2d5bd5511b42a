# Charter's change-control plane, verified

Charter lets an agent write into a workspace and promises that those writes can
be recorded, reviewed, partly undone or rolled back byte for byte, and that
nobody's newer edits are silently lost. This project models the code that keeps
that promise, over whole runs, together with the self-contained algorithms the
same repository relies on, and proves what they do in Dafny.

## How it is built

| file | subject |
|---|---|
| `Utf8`, `Splitting`, `Sorting`, `Numbers`, `Counting` | UTF-8, split/join, stable sort, digit strings, counts |
| `Content`, `LineEndings`, `Storage` | files and digests, end-of-line handling, the disk and the blob store |
| `Documents`, `DocumentEvents`, `DocumentRuns` | the document store, what each event means, and what its runs keep |
| `Hunks`, `TextHunks`, `HunkReview` | the hunk algebra, and hunk review through the service |
| `Changes`, `ChangeService`, `ChangeEffects` | the change service: specification of every operation, the class that carries them out, and what each one does |
| `ChangeRuns`, `ChangeHistory`, `TurnRollback`, `TurnUndo`, `ChangeSets`, `LostFiles`, `ExternalChanges` | what runs of the service keep |
| `RemoteWorker` | the remote worker's diff/apply pair |
| `ReplayFraming`, `ReplaySpans` | incremental line framing and span merging |
| `ToolAliases`, `AsyncQueue` | tool aliases and the event queue of the runtime adapter |
| `GitStatus`, `Fuzzy` | the porcelain v2 parser and the fuzzy matcher |

Code that changes state step by step is a class with those fields, or a method
with its loop. Each such method is proved equal to a specification function of
the old state (`Documents.Apply`, the operations of `Changes`, and so on), and
the theorems are about those functions and their runs.

Modelling choices. The disk is a flat map from paths to bytes and permission
bits. SHA-256 is a free constructor over the bytes, so equal digests mean equal
bytes; no operation looks inside one. UTF-8 is concrete, with the replacement
rules of a lenient decoder. Each asynchronous method is one atomic step, and
outside edits and watcher events are steps of their own. The clock is a
parameter, read once per step. The diff library is a parameter: a diff, a hunk
application and a line count; a patch is any partial function from text to text.
Host limits (`maxEditableBytes`, `largeFileBytes`, the mode of a new file) are
parameters as well. One task is modelled at a time: its baselines in the order
of first touch, and its log.

## What the code does differently from what it promises

Each of these is proved, with the exact condition where there is one.

- A path that was touched but never logged (a patch refused after its target was
  captured) is not protected: preflight takes foreign bytes there for the task's
  own work (`UnloggedPathIsUnprotected`, `RefusedPatchCostsForeignEdit`).
- A patch of a document open with a byte-order mark logs the hash of the text
  without the mark, so the log no longer describes the disk
  (`PatchLogsWhatItWrote`), and rollback is refused although nobody else wrote
  (`MarkedPatchBlocksRollback`). This is the one guard on the steps of
  `TaskIsUndoable`.
- Undoing a turn is not all or nothing: a target whose recorded version is in no
  blob is left alone while the others are moved (`StatesOutcome`). A patch records
  such a version whenever it replaces a text that no blob holds: what somebody
  saved since the last turn, a dirty buffer, or a file with a byte-order mark
  (`ReplacedVersionResolvesIff`, `MarkedTurnIsHalfUndone`). Without outside edits,
  and where patches and writes start from what the disk holds, every turn can be
  undone (`EveryTurnIsUndoable`, `TurnsUnwind`); modes are not restored, although
  the comment there promises the guarantees of a full rollback.
- `rollbackToStates` logs nothing, so a later rollback can call its result a
  conflict (`StatesLookForeignLater`).
- The change set lists binary files as modified after a perfect rollback
  (`AfterRollbackOnlyBinariesListed`). It loses a renamed file that is gone unless
  some listed entry says it was renamed from it (`MissingFileRepresentedIff`): one
  moved and then deleted, one moved twice, one moved onto a deleted file with the
  same text (`MovedThenDeletedVanishes`, `MovedTwiceIsLost`, `MovedOntoItsLikeIsLost`).
- Reconciling a deletion adds a new record every time (`DeletionsPileUp`).
- A save with no known disk hash overwrites whatever is there
  (`UnforcedSaveReplacesWhatWasSeen`, `RecreatedFileIsOverwritten`).
- A document opened without a byte-order mark whose text starts with U+FEFF does
  not describe its own file after a save (`CarelessSaveBreaks`). This is the one
  caution on the runs of `RunKeepsInvariant`.
- A text file too large to edit is emptied when it is opened and saved
  (`OpenThenSave`); a clean reload keeps a stale encoding (`SaveAfterCleanReload`).
- A patch that is refused because the file changed on disk has already replaced the
  open buffer by the patched text (`OpenPatchEffect`).
- A patch through an open document resets the file's mode
  (`PatchOfOpenDocument`), and `revertFile` leaves a wrong mode alone when the
  content is right (`RevertSkipsMode`).
- Keys of identical hunks shift when an earlier one is rejected, although the
  comment in review.ts says keys stay valid (`KeyAfterReject`).
- A finished review does not bring back a byte-order mark, and leaves a file the
  task created empty instead of removing it (`FinishedReviewLeaves`). A rejection
  that restores what the store saved a moment ago is not seen in the open buffer
  (`RejectionToSavedTextIsHidden`).
- Rejecting a hunk of an open file, or reverting it, never looks at the disk: bytes
  that the store has not seen are replaced without a warning (`RejectionReplaces`,
  `RevertReplaces`, `UnseenBytesAreReplaced`).
- Mode-only changes are no part of the remote diff (`ModesFollowContentOnly`), and
  a diff of more than 20,000 entries, which moving a large folder can give, is
  refused by the apply it was made for (`DiffAndApplyAreInverse`, `MovesCountTwice`).
- A tool name the provider accepts can lose its own name to an earlier alias
  (`ValidNameIsLost`, `ValidNameCanBeTaken`).
- What is appended to a recording after the first call that is no longer live is
  never analyzed (`LastCallMustReachTheEnd`).

## Model

| member | source | states |
|---|---|---|
| ChangeRuns.TaskIsUndoable | packages/change-service/src/change-service.ts:703-838 | over every run of patches, creations, direct writes, deletions, renames, hunk rejections, file reverts, rollbacks and document events, with no outside edit: every touched path is what the log or its baseline says, preflight finds no conflict, and rollback is not refused and leaves exactly the starting disk, modes and absences included |
| ChangeRuns.RunKeeps | packages/change-service/src/change-service.ts:165-570 | the run invariant: baselines are the starting files, untouched paths are unchanged, touched ones are explained, the log speaks only of touched paths |
| ChangeRuns.RollbackRestoresStart | packages/change-service/src/change-service.ts:769-838 | from any accounted state rollback succeeds, forced or not, gives back the starting disk, restores every touched path in order, and leaves the state accounted |
| ChangeRuns.AccountedHasNoConflict | packages/change-service/src/change-service.ts:703-745 | no conflict is reported while only the task writes |
| ChangeRuns.PatchKeeps | packages/change-service/src/change-service.ts:369-427 | a patch keeps the account, refused or not, given that the open document carries no mark |
| ChangeRuns.RenameKeeps | packages/change-service/src/change-service.ts:535-570 | a rename keeps the account of both its paths |
| ChangeRuns.RevertKeeps | packages/change-service/src/change-service.ts:995-1079 | a file revert keeps the account: what it writes is what it logs |
| ChangeRuns.PatchLogsWhatItWrote | packages/change-service/src/change-service.ts:407-425 | a successful patch leaves on disk what it logged if and only if the document is closed or open without a byte-order mark |
| ChangeRuns.RestoreAllRestores | packages/change-service/src/change-service.ts:780-838 | restoring intact baselines succeeds on each, puts back bytes and mode or absence, and leaves every other path alone |
| ChangeHistory.EverythingStaysRecoverable | packages/change-service/src/change-service.ts:165-1079 | over every run, with outside edits, observations and every kind of rollback: each baseline and each logged version resolves in the blob store to the bytes it names, baselines never change, the log only grows, no blob's content changes |
| ChangeHistory.PreflightPartitions | packages/change-service/src/change-service.ts:703-745 | every touched path is in exactly one of the three lists, the one its standing says |
| ChangeHistory.ConflictIff | packages/change-service/src/change-service.ts:714-740 | a path is a conflict if and only if the log speaks of it and its disk hash is neither the log's nor the baseline's |
| ChangeHistory.RollbackFromAnyState | packages/change-service/src/change-service.ts:769-838 | in any closed state, foreign edits included, a rollback that runs restores every touched path and no other, and each is then at its baseline |
| ChangeHistory.UnforcedRollbackSparesForeignEdits | packages/change-service/src/change-service.ts:703-779 | an unforced rollback is refused if and only if there are foreign bytes at a logged path; then nothing changes and exactly those paths are named; one that runs replaces at logged paths only the task's own last version or what is the baseline already |
| ChangeHistory.UnloggedPathIsUnprotected | packages/change-service/src/change-service.ts:722-730 | foreign bytes at a touched path are reported if and only if the log speaks of the path |
| ChangeHistory.RefusedPatchTouches | packages/change-service/src/change-service.ts:374-405 | every refused patch leaves its path touched, and log and disk as they were |
| ChangeHistory.RefusedPatchCostsForeignEdit | packages/change-service/src/change-service.ts:374-779 | the accident as a whole: a first patch is refused, somebody else writes the file, and an unforced rollback succeeds and takes their bytes away |
| ChangeHistory.MarkedPatchIsForeign | packages/change-service/src/change-service.ts:407-425 | after a task's first patch of a document open with a mark, its own write counts as foreign if and only if it changed the bytes |
| ChangeHistory.MarkedPatchBlocksRollback | packages/change-service/src/change-service.ts:326-779 | for every marked file: open it, patch it, and an unforced rollback is refused naming it, although nobody else wrote |
| ChangeHistory.FailedStepWritesNothing | packages/change-service/src/change-service.ts:369-1079 | a step that reports an error has written nothing to disk and logged nothing |
| ChangeEffects.CreateEffect | packages/change-service/src/change-service.ts:459-497 | refused if and only if the file is there; else the file holds the text with a new file's mode, and log and blob say so |
| ChangeEffects.WriteDirectEffect | packages/change-service/src/change-service.ts:430-457 | the file holds the bytes with its mode kept, the open document is told, and the record names what a reader got before |
| ChangeEffects.DeleteEffect | packages/change-service/src/change-service.ts:499-533 | refused if and only if nothing is on disk, with the error that says whether a document is open; else the file is gone, its bytes stored and the document told |
| ChangeEffects.RenameEffect | packages/change-service/src/change-service.ts:535-570 | refused if and only if the target is there or the source is not; else the file moves with bytes and mode |
| ChangeEffects.RefusedPatchEffect | packages/change-service/src/change-service.ts:374-405 | the four refusals of a patch, in their order, with nothing changed |
| ChangeEffects.ClosedPatchEffect | packages/change-service/src/change-service.ts:397-426 | any other patch of a closed file succeeds and leaves its text with the file's mode |
| ChangeEffects.OpenPatchEffect | packages/change-service/src/change-service.ts:326-426 | on an open document it goes through if and only if an unforced save would; then file and buffer hold it; else the disk stays and the buffer holds the patched text unsaved |
| ChangeEffects.RejectRefusals | packages/change-service/src/change-service.ts:935-964 | the refusals of a rejection before any hunk is looked at, with nothing changed |
| ChangeEffects.RejectEffect | packages/change-service/src/change-service.ts:987-992 | one that succeeds is logged as the user's, from the text reviewed to the text on disk |
| ChangeEffects.RevertRefusals | packages/change-service/src/change-service.ts:995-1016 | a revert succeeds if and only if the path is touched and the reader saw the current text; else its error |
| ChangeEffects.RevertEffect | packages/change-service/src/change-service.ts:1017-1079 | restored, removed or nothing to do, exactly when, and what file, document and record it leaves |
| ChangeEffects.ConflictsSay | packages/change-service/src/change-service.ts:728-741 | a conflict names the hash on disk and the one the log expected |
| ChangeEffects.ForcedRollbackReports | packages/change-service/src/change-service.ts:769-838 | a forced rollback names exactly the foreign edits it overrode, and every touched path as restored and verified |
| ChangeEffects.RollbackTells | packages/change-service/src/change-service.ts:781-838 | a rollback tells the open document at every touched path of its restored file, and no other |
| ChangeEffects.MoveAllTells | packages/change-service/src/change-service.ts:882-931 | a rollback to recorded states tells the documents at the paths it moved, and no other |
| ChangeEffects.SnapshotEffect | packages/change-service/src/change-service.ts:206-240 | a captured baseline is what was given, and only the first one counts |
| ChangeEffects.ObserveEffect | packages/change-service/src/change-service.ts:248-299 | an observation records what is on disk, nothing for a deletion, and stores it |
| ChangeEffects.FirstReconcile | packages/change-service/src/change-service.ts:304-323 | the first reconciliation of a path records a change of the system if and only if what is there is not what the session found |
| ChangeHistory.PatchReplacesWhatItWasMadeFor | packages/change-service/src/change-service.ts:388-407 | a patch that succeeds on a closed file was made for the very text it replaces, and leaves its result with the file's mode |
| ChangeHistory.PatchOfOpenDocument | packages/change-service/src/change-service.ts:326-345 | on an open document a successful patch was made for the buffer and overwrites no version the document has not seen, but resets the mode |
| ChangeHistory.RevertingEachEqualsRollback | packages/change-service/src/change-service.ts:995-1079 | confluence: reverting every touched path, in any order and any number of times, gives the contents one rollback gives, and every path is then at its baseline |
| ChangeHistory.RevertSkipsMode | packages/change-service/src/change-service.ts:1020-1040 | a revert of right content changes nothing; rollback changes nothing there either if and only if the mode is the recorded one |
| TurnRollback.StatesOutcome | packages/change-service/src/change-service.ts:847-932 | conflicts are named exactly; an unforced request with one changes nothing; else each target ends at its version if and only if it was there already or the version is stored, with the mode found there or that of a new file, the others are left alone, and no other path is touched; success is reported if and only if every target arrives and no conflict stops an unforced request |
| TurnRollback.MoveAllReports | packages/change-service/src/change-service.ts:882-931 | every target is verified, in order, by whether it arrives, and those moved are named as restored |
| TurnRollback.TargetConflictsSay | packages/change-service/src/change-service.ts:856-877 | a conflict is listed if and only if a target is in conflict, with the hash found and the one expected |
| TurnRollback.ReplacedVersionResolvesIff | packages/change-service/src/change-service.ts:388-425 | what hash any successful patch, of an open document or a closed file, logs for the version it replaces, and the exact condition under which that version is in the blob store afterwards |
| TurnRollback.MarkedTurnIsHalfUndone | packages/change-service/src/change-service.ts:878-931 | for every turn that patches a marked file and creates another: undoing it meets no conflict, removes the created file, leaves the patch and reports failure |
| TurnRollback.StatesLookForeignLater | packages/change-service/src/change-service.ts:847-932 | a target of any such request that is carried out, forced or not, is a conflict of a later rollback if and only if the log speaks of it and the version it ended at is neither the log's nor the baseline |
| TurnUndo.TurnIsTold | apps/desktop-main/src/services/task-service.ts:1913-1947 | over a turn whose patches and writes start from what the disk holds, the folded targets name for each path the version before the turn and the one on disk now, and every other path is as it was |
| TurnUndo.UndoneTurnRestores | apps/desktop-main/src/services/task-service.ts:1913-1990 | undoing such a turn meets no conflict, and gives back the contents from before it if and only if every target arrives, which is what it reports |
| TurnUndo.EveryTurnIsUndoable | apps/desktop-main/src/services/task-service.ts:1913-1990 | after any run without outside edits, undoing such a turn succeeds and every path has its content from before the turn; each file keeps the mode the turn left, or gets that of a new file |
| TurnUndo.TurnsUnwind | apps/desktop-main/src/services/task-service.ts:1871-1990 | undoing any number of such turns one by one, the newest first, never meets a conflict and ends with the contents from before the task |
| TurnUndo.ReadsDiskIff | packages/document-service/src/document-store.ts:373-413 | for a closed file a reader's hash is the disk's if and only if it is valid UTF-8 text without a mark, or empty |
| TurnUndo.MarkedTargetsAreFolded | apps/desktop-main/src/services/task-service.ts:1913-1947 | the targets of MarkedTurnIsHalfUndone are those the fold gives |
| ChangeSets.NetListingIsExact | packages/change-service/src/change-service.ts:572-669 | without renames, a touched text file is listed from disk under a status if and only if its text without mark, or its existence, differs from the baseline in that way |
| ChangeSets.BufferListingIsExact | packages/change-service/src/change-service.ts:572-650 | the same of the change set over open buffers, for the text a reader would get |
| ChangeSets.NewFileStatus | packages/change-service/src/change-service.ts:600-601 | a new file is listed as renamed if and only if the log holds a rename to it, else as created |
| ChangeSets.KeptFileStatus | packages/change-service/src/change-service.ts:605-606 | a file that was and is there is listed, as modified, if and only if what is read is not the baseline's text, whatever was renamed |
| ChangeSets.OriginIs | packages/change-service/src/change-service.ts:591-592 | the origin named is that of the log's first rename to the path |
| ChangeSets.EntriesSay | packages/change-service/src/change-service.ts:608-638 | every entry has its origin, its binary flag, the library's counts for the text before and the text now in that order, empty where the file was not, and both hashes |
| LostFiles.RenameIsListed | packages/change-service/src/change-service.ts:572-642 | for any text file renamed to a free path: one entry, renamed from the old path, its text counted against nothing |
| ChangeSets.ListedAreTouched | packages/change-service/src/change-service.ts:578-642 | a change set lists touched paths only, each at most once |
| ChangeSets.TotalsAreSums | packages/change-service/src/change-service.ts:572-642 | the totals are the sums over the listed files |
| ChangeSets.AfterRollbackOnlyBinariesListed | packages/change-service/src/change-service.ts:657-669 | after any rollback that ran, renames included, a touched path is listed if and only if its baseline is binary |
| ChangeSets.NothingListedAfterRollback | packages/change-service/src/change-service.ts:572-669 | the whole change set is then empty if and only if no baseline is binary |
| LostFiles.MissingFileRepresentedIff | packages/change-service/src/change-service.ts:590-606 | a file that is gone is accounted for, under its path or as the origin of an entry, if and only if the task never renamed it or some listed entry is renamed from it |
| LostFiles.MissingFileListedUnlessRenamed | packages/change-service/src/change-service.ts:602-604 | it is listed under its own path if and only if the task never renamed it |
| LostFiles.MovedTwiceIsLost | packages/change-service/src/change-service.ts:590-606 | for any file moved twice, no entry stands for it although it is gone from its place |
| LostFiles.MovedOntoItsLikeIsLost | packages/change-service/src/change-service.ts:590-606 | for any file moved onto one the task deleted, with the same text, nothing is listed |
| LostFiles.MovedThenDeletedVanishes | packages/change-service/src/change-service.ts:590-606 | for any file, moving and then deleting it leaves an empty change set although the file is gone |
| ExternalChanges.ObservationsChain | packages/change-service/src/change-service.ts:248-323 | over any run of an external session the records of a path chain from the captured baseline to the last observation |
| ExternalChanges.ObservedVersionStaysReadable | packages/change-service/src/change-service.ts:263-268 | the version seen at an observation can be read back from its record after anything that happens later |
| ExternalChanges.ReconcileAgain | packages/change-service/src/change-service.ts:304-323 | reconciling again with nothing changed records something if and only if the file is gone and existed in the baseline |
| ExternalChanges.DeletionsPileUp | packages/change-service/src/change-service.ts:314-322 | n reconciliations of such a deletion add n records |
| HunkReview.RejectOnce | packages/change-service/src/change-service.ts:935-992 | a rejection succeeds if and only if the reviewer saw the current text and the key names a hunk of the current diff; then the file is the baseline with all the other hunks, fewer changed lines are left, and no other file changed |
| HunkReview.RejectOnceOpen | packages/change-service/src/change-service.ts:935-992 | the same on an open file, against the buffer's text and diff |
| HunkReview.ReviewBaseIsStart | packages/change-service/src/change-service.ts:965-967 | without outside edits the text a review compares with is what a reader got before the task |
| HunkReview.RejectingAllRestoresBaseline | packages/change-service/src/change-service.ts:935-992 | however hunks are picked, a review takes no more rejections than there were changed lines, and when no hunk is left the file is its baseline text |
| HunkReview.FinishedReviewLeaves | packages/change-service/src/change-service.ts:935-992 | when a review of at least one rejection is finished the file holds the baseline's bytes if and only if they were valid UTF-8 without a byte-order mark; a created file is left empty |
| HunkReview.RejectOnOpenDocument | packages/change-service/src/change-service.ts:429-457 | a rejection of an open file always reaches the disk; a dirty buffer keeps its text, and a clean one follows if and only if the notification is not taken for the store's own save, or the text stays the same |
| HunkReview.RejectionToSavedTextIsHidden | packages/change-service/src/change-service.ts:429-457 | bringing back the text the store saved last, while the own-write window is open, leaves the buffer behind |
| HunkReview.RejectionReplaces | packages/change-service/src/change-service.ts:940-992 | a successful rejection replaces, on a closed file, bytes that read as the reviewed text; on an open one it goes through over anything others wrote |
| HunkReview.RevertReplaces | packages/change-service/src/change-service.ts:995-1079 | the same of a revert |
| HunkReview.UnseenBytesAreReplaced | packages/change-service/src/change-service.ts:940-992 | over every run of the document store, what such a rejection replaces is what the store last read or wrote there if and only if the disk hash it holds is the file's |
| TextHunks.RejectedText | packages/change-service/src/change-service.ts:968-986 | for any such library, undoing hunk k gives a text whose lines are the baseline with all other hunks, and its own diff has fewer changed lines |
| TextHunks.FaithfulLibrary | packages/change-service/src/change-service.ts:965-986 | what the review theorems ask of the diff library can be met, for all baselines at once |
| TextHunks.PrintedLinesDetermine | packages/change-service/src/review.ts:31-36 | hunk lines are determined by their printed text, the no-newline marker included, so a key's digest names the lines |
| Hunks.UndoOneHunk | packages/change-service/src/review.ts:51-69 | undoing one hunk at its new position succeeds and gives exactly the base with all the other hunks applied, which are again a diff of the base |
| Hunks.RejectByKey | packages/change-service/src/review.ts:20-69 | a rejection fails if and only if its key names no hunk of the current diff |
| Hunks.RejectAllInAnyOrder | packages/change-service/src/review.ts:20-69 | in whatever order hunks are rejected, every text on the way is the base with the standing hunks, and as many rejections as hunks end at the base |
| Hunks.RejectAllPossible | packages/change-service/src/review.ts:20-69 | for every diff such a complete order exists |
| Hunks.KeysDistinct | packages/change-service/src/review.ts:28-37 | no two hunks of one diff share a key |
| Hunks.KeyFindsHunk | packages/change-service/src/review.ts:28-37 | looking a hunk's key up finds that hunk |
| Hunks.KeyAfterReject | packages/change-service/src/review.ts:33-36 | a rejection keeps every other key, except that a later hunk with the very same lines moves down one ordinal |
| Hunks.ParseHunks | packages/change-service/src/review.ts:20-49 | the loop with its map of seen keys gives every hunk its lines and the count of equal hunks before it |
| ChangeControl.ChangeRepo.SaveBaseline | packages/change-service/src/change-service.ts:58-60 | storing a baseline replaces the one of its path, else adds it last |
| Changes.StoredBaselineIsFound | packages/change-service/src/change-service.ts:55-60 | a stored baseline is then found at its path, in the place of an earlier one, and every other path finds what it found |
| ChangeControl.ChangeService.EnsureBaseline | packages/change-service/src/change-service.ts:165-197 | the pre-task state is captured once, on first touch |
| ChangeControl.ChangeService.EnsureBaselineFromBytes | packages/change-service/src/change-service.ts:206-240 | a baseline from provided bytes, or of absence, captured once |
| ChangeControl.ChangeService.WriteThrough | packages/change-service/src/change-service.ts:326-345 | the whole effect of a write through an open document or to disk, conflict included |
| ChangeControl.ChangeService.ApplyPatchTo | packages/change-service/src/change-service.ts:369-427 | the whole effect of a base-hash-checked patch and each of its errors |
| ChangeControl.ChangeService.WriteDirect | packages/change-service/src/change-service.ts:430-457 | the whole effect of a direct write |
| ChangeControl.ChangeService.Create | packages/change-service/src/change-service.ts:459-497 | the whole effect of a creation, and its refusal over an existing file |
| ChangeControl.ChangeService.Delete | packages/change-service/src/change-service.ts:499-533 | the whole effect of a deletion, and its errors |
| ChangeControl.ChangeService.Rename | packages/change-service/src/change-service.ts:535-570 | the whole effect of a rename, and its errors |
| ChangeControl.ChangeService.Reject | packages/change-service/src/change-service.ts:935-992 | the whole effect of a hunk rejection, and its errors |
| ChangeControl.ChangeService.Revert | packages/change-service/src/change-service.ts:995-1079 | the whole effect of a file revert, and its errors |
| ChangeControl.ChangeService.ExpectedPostTaskState | packages/change-service/src/change-service.ts:748-766 | the loop over the log computes the predicted disk |
| ChangeControl.ChangeService.CheckRollback | packages/change-service/src/change-service.ts:703-745 | the loop over the baselines computes the classification that PreflightPartitions and ConflictIff are about |
| ChangeControl.ChangeService.RollBack | packages/change-service/src/change-service.ts:769-838 | the whole effect of a rollback and its report |
| ChangeControl.ChangeService.MoveToStates | packages/change-service/src/change-service.ts:847-932 | the whole effect of a rollback to recorded states and its report |
| ChangeControl.ChangeService.ProjectChangeSet | packages/change-service/src/change-service.ts:572-642 | the projection loop computes the listing that the ChangeSets lemmas are about |
| ChangeControl.ChangeService.RecordExternalChange | packages/change-service/src/change-service.ts:248-299 | the whole effect of recording an observation |
| ChangeControl.ChangeService.ReconcileExternalChange | packages/change-service/src/change-service.ts:304-323 | the whole effect of reconciling an observation |
| Storage.BlobStore.Put | packages/change-service/src/blob-store.ts:13-27 | putting stores the content under its digest, or finds it there |
| DocumentRuns.RunKeepsInvariant | packages/document-service/src/document-store.ts:108-370 | over every careful run of opens, edits, saves, resolutions, watcher events and outside writes: the content hash is the content's, the saved revision is at most the buffer's, and a clean editable document has equal revisions and is the decoding of the bytes its disk hash names |
| DocumentRuns.RunGrowsRevisions | packages/document-service/src/document-store.ts:173-370 | no revision of a document that stays open ever goes back |
| DocumentRuns.SavedFileReadsBack | packages/document-service/src/document-store.ts:229-262 | a saved file decodes to the buffer if and only if the document carries a mark or its text does not start with one |
| DocumentRuns.CarelessSaveBreaks | packages/document-service/src/document-store.ts:229-262 | every other save of an editable document breaks the document invariant |
| DocumentRuns.RevisionNamesText | packages/document-service/src/document-store.ts:173-370 | over every run in which a document stays open, the same buffer revision means the same text |
| DocumentRuns.UnsavedTextSurvives | packages/document-service/src/document-store.ts:281-331 | through any number of outside writes, deletions and watcher events a dirty buffer keeps its text and stays dirty |
| DocumentRuns.UnforcedSaveReplacesWhatWasSeen | packages/document-service/src/document-store.ts:200-268 | over every interleaving, an unforced save that goes through while a file is there replaces the very bytes the store last read or wrote there, unless, and only unless, the document has no disk hash because the file was last reported gone |
| DocumentRuns.RecreatedFileIsOverwritten | packages/document-service/src/document-store.ts:212-227 | for any document, a file deleted, reported and written again by others is overwritten without a conflict |
| DocumentRuns.ConflictHoldsBack | packages/document-service/src/document-store.ts:200-370 | once marked as modified outside, a document stays marked and its file holds exactly what others write there, until a resolution, a forced save, a clean reload, a reported deletion or a close |
| DocumentRuns.SwallowedEventStillGuarded | packages/document-service/src/document-store.ts:286-300 | a change back to bytes the store wrote can be swallowed by the own-write window, but the next unforced save is then a conflict |
| DocumentRuns.OwnSaveIsSuppressed | packages/document-service/src/document-store.ts:271-300 | the store's own save does not come back as an outside change while its window is open |
| DocumentRuns.OpenThenSave | packages/document-service/src/document-store.ts:108-268 | a valid UTF-8 text file survives an open and a save if and only if it was small enough to edit; otherwise it is emptied |
| DocumentRuns.SaveAfterCleanReload | packages/document-service/src/document-store.ts:302-325 | a save right after a clean reload rewrites the same bytes if and only if the byte-order mark did not come or go |
| DocumentRuns.SetEolKeepsLines | packages/document-service/src/document-store.ts:187-197 | changing line endings keeps every line, and a text it changes is dirty and detected as the new style |
| DocumentEvents.OutsideEditSurvives | packages/document-service/src/document-store.ts:281-370 | an outside edit under unsaved text marks the document and keeps the text; then the file holds those bytes through every run of edits, unforced saves and events, whatever others write there aside, until a clearing step |
| DocumentEvents.NewsMarksDirty | packages/document-service/src/document-store.ts:306-330 | at an event that is news, a dirty document keeps its text, is marked, and an unforced save is refused and leaves the file alone |
| DocumentEvents.NewsReloadsClean | packages/document-service/src/document-store.ts:306-323 | at such an event a clean document takes the file's text and is clean, with equal revisions one further |
| DocumentEvents.NewsOfDeletion | packages/document-service/src/document-store.ts:298-304 | when the file is gone the text is kept, unsaved, and the document says so |
| DocumentEvents.NoNews | packages/document-service/src/document-store.ts:293-307 | an event for known bytes or for the store's own save changes nothing a user sees |
| DocumentEvents.HeardIff | packages/document-service/src/document-store.ts:277-331 | a caller hears of an event if and only if it is news |
| DocumentEvents.KeepKeepsBuffer | packages/document-service/src/document-store.ts:352-369 | keep: the buffer stays, unsaved and unmarked, and the next unforced save of a writable text document writes it over whatever is there |
| DocumentEvents.ReloadTakesFile | packages/document-service/src/document-store.ts:334-351 | reload: the file's text replaces the buffer and the document is clean |
| DocumentEvents.ReloadNeedsFile | packages/document-service/src/document-store.ts:334-351 | reloading a file that is gone changes nothing |
| DocumentEvents.OpenShowsFile | packages/document-service/src/document-store.ts:108-163 | opening shows the text of an editable text file, nothing of any other, clean, with its encoding, limits and rights; an open document or a missing file changes nothing |
| DocumentEvents.EditTakesText | packages/document-service/src/document-store.ts:173-185 | an edit that changes the text leaves it unsaved under a new revision; no edit reaches a binary document or the disk |
| DocumentEvents.EolChangesBreaks | packages/document-service/src/document-store.ts:187-197 | another style keeps every line, leaves no break of another style, and is unsaved |
| DocumentEvents.SaveWrites | packages/document-service/src/document-store.ts:200-268 | a save of a writable text document that is forced, or has nothing in its way, writes the buffer, behind its mark, and leaves the document clean |
| DocumentEvents.SaveIsRefused | packages/document-service/src/document-store.ts:200-228 | every other save leaves disk and text alone, and only a conflict leaves a mark |
| DocumentEvents.ReaderGets | packages/document-service/src/document-store.ts:373-413 | a reader gets the buffer of an open document, else the file's text, else nothing |
| DocumentEvents.OthersUntouched | packages/document-service/src/document-store.ts:108-417 | no event at one path touches another file or document |
| Documents.DocumentStore.OpenDocument | packages/document-service/src/document-store.ts:108-163 | the whole effect of opening a document |
| Documents.DocumentStore.UpdateBuffer | packages/document-service/src/document-store.ts:173-185 | the whole effect of an edit, and its errors |
| Documents.DocumentStore.ChangeEol | packages/document-service/src/document-store.ts:187-197 | the whole effect of changing the line endings |
| Documents.DocumentStore.SaveDocument | packages/document-service/src/document-store.ts:200-268 | the whole effect of a guarded save, each refusal included |
| Documents.DocumentStore.HandleExternalChange | packages/document-service/src/document-store.ts:281-331 | the whole effect of a watcher event, and whether it notifies |
| Documents.DocumentStore.ResolveExternal | packages/document-service/src/document-store.ts:334-370 | the whole effect of a resolution |
| Documents.DocumentStore.ReadLogical | packages/document-service/src/document-store.ts:373-413 | the open buffer, else the decoded file |
| Documents.DocumentStore.CloseDocument | packages/document-service/src/document-store.ts:415-417 | the document is forgotten, the disk is left alone |
| LineEndings.DetectEol | packages/foundation/src/bytes.ts:12-22 | the counting loop computes the majority style |
| LineEndings.EolIsMajority | packages/foundation/src/bytes.ts:12-22 | "crlf" if and only if more line feeds follow a carriage return than do not |
| LineEndings.NormalizeTwice | packages/foundation/src/bytes.ts:24-27 | only the last normalisation matters, and every line is kept |
| LineEndings.DetectAfterNormalize | packages/foundation/src/bytes.ts:12-27 | a normalised text is detected as the requested style if and only if that is "lf" or the text has a line break |
| Content.DetectBinary | packages/foundation/src/bytes.ts:4-10 | true if and only if a NUL stands in the first 8192 bytes |
| RemoteWorker.DiffAndApplyAreInverse | apps/desktop-main/src/remote-session-worker.ts:324-496 | the diff's entries applied to the baseline give the current contents, applied backward to the current tree give the baseline's, neither meets a conflict, and both are carried out if and only if there are at most 20,000 entries |
| RemoteWorker.MovesCountTwice | apps/desktop-main/src/remote-session-worker.ts:324-356 | a diff of trees without common paths has an entry for each path of both, so it can exceed that limit |
| RemoteWorker.ApplyDiff | apps/desktop-main/src/remote-session-worker.ts:414-496 | on any tree at all, a diff's request is carried out if and only if it is not too long, no file is too large and every differing path is as expected; then each goes to its other side and the rest stays |
| RemoteWorker.TakingBackKeepsUnrelatedEdits | apps/desktop-main/src/remote-session-worker.ts:414-496 | taking a diff of at most 20,000 entries back after others edited unrelated files restores its paths and keeps those edits |
| RemoteWorker.ConflictsAreExact | apps/desktop-main/src/remote-session-worker.ts:449-462 | a conflict is named if and only if an entry's file is not as expected, with the hash found |
| RemoteWorker.EmptyDiffIff | apps/desktop-main/src/remote-session-worker.ts:324-356 | the diff is empty if and only if paths and contents agree |
| RemoteWorker.ModesFollowContentOnly | apps/desktop-main/src/remote-session-worker.ts:324-496 | going forward gives the very same tree if and only if no file changed its mode alone and no changed file has a mode bit above 0o777 |
| RemoteWorker.WriteEntriesEffect | apps/desktop-main/src/remote-session-worker.ts:463-495 | writing entries for distinct paths puts each in place and touches nothing else |
| RemoteWorker.Worker.ScanFiles | apps/desktop-main/src/remote-session-worker.ts:258-293 | the scan succeeds if and only if the tree is within the three limits, and is then the manifest of the whole tree |
| RemoteWorker.Worker.CaptureFileBaseline | apps/desktop-main/src/remote-session-worker.ts:305-322 | every file's content is kept, or a file that is no longer as scanned is named and the baseline stays as it was |
| RemoteWorker.Worker.ReadBaselineBlob | apps/desktop-main/src/remote-session-worker.ts:299-303 | the stored bytes if and only if they are there and have the recorded hash |
| RemoteWorker.Worker.FileChanges | apps/desktop-main/src/remote-session-worker.ts:324-356 | the diff succeeds if and only if the scan does, every needed blob is stored and the payload is within its limit; it then has one entry for each differing path, with the kind, bytes, hash and mode of either side as they are |
| RemoteWorker.DiffTells | apps/desktop-main/src/remote-session-worker.ts:329-353 | that is what the diff of any two trees is: created if and only if not in the baseline, deleted if and only if not in the current tree |
| RemoteWorker.Worker.ApplyChanges | apps/desktop-main/src/remote-session-worker.ts:414-496 | two phases: any conflict refuses the whole request and names all of them, an error leaves the tree alone, success writes every entry |
| RemoteWorker.AppliedIsOnDisk | apps/desktop-main/src/remote-session-worker.ts:463-496 | what a success reports for a path is what is then on disk |
| RemoteWorker.ManifestTells | apps/desktop-main/src/remote-session-worker.ts:288-289 | a manifest names exactly the files, with hash, size and permission bits |
| RemoteWorker.Worker.InspectPaths | apps/desktop-main/src/remote-session-worker.ts:501-556 | both sides of every requested path, with their kind, as they are, if and only if within the limits and recoverable |
| ReplayFraming.FramingOverCalls | apps/desktop-main/src/terminal-replay-analysis-worker.ts:169-222 | over any number of calls on a growing recording, however reads are cut, the lines handed on are exactly the complete lines before the position reached, each once and in order, with the cursor behind the last |
| ReplayFraming.ReadToIsUnique | apps/desktop-main/src/terminal-replay-analysis-worker.ts:176-218 | cursor and lines depend on the position reached alone, not on chunk boundaries |
| ReplayFraming.LastCallMustReachTheEnd | apps/desktop-main/src/terminal-replay-analysis-worker.ts:224-229 | on the recording as it ends up, the last call has handed on every complete line if and only if no newline lies behind the position it reached |
| ReplayFraming.SegmentState.ProcessSegment | apps/desktop-main/src/terminal-replay-analysis-worker.ts:169-229 | a finished segment or a missing recording changes nothing; else one call reads exactly as far as its reads go |
| ReplayFraming.SegmentState.ReadLines | apps/desktop-main/src/terminal-replay-analysis-worker.ts:172-218 | the chunk loop with its cursor, buffer start and pending bytes meets that |
| ReplaySpans.MergingIsSound | apps/desktop-main/src/terminal-replay-analysis-worker.ts:232-263 | merging keeps the total event count of the id-deduplicated spans, covers each of them by a span of its kind, and returns an ordered list in which no two neighbours could be merged |
| ReplaySpans.MergingIsIdempotent | apps/desktop-main/src/terminal-replay-analysis-worker.ts:232-263 | merging twice changes nothing more |
| ReplaySpans.MergedStandForRuns | apps/desktop-main/src/terminal-replay-analysis-worker.ts:238-262 | an ordered list is cut into runs, and each merged span stands for one: the first name and start, the last end, the sum of events, the longest suggestion, high confidence if any had it, the last one's liveness |
| ReplaySpans.ByIdKeepsPlace | apps/desktop-main/src/terminal-replay-analysis-worker.ts:235 | the kept spans stand in the order in which their ids first appeared |
| ReplaySpans.ByIdKeepsLast | apps/desktop-main/src/terminal-replay-analysis-worker.ts:235 | a span is kept if and only if it is the last of its id |
| ReplaySpans.MergeSpans | apps/desktop-main/src/terminal-replay-analysis-worker.ts:232-263 | the loops compute the merge these lemmas are about |
| ToolAliases.AliasesAreSafeAndDistinct | packages/agent-runtime-pi/src/index.ts:83-109 | for every list of names, repeated ones too, each name has an alias the provider accepts and no two names share one |
| ToolAliases.TakenAreFew | packages/agent-runtime-pi/src/index.ts:99-104 | pigeonhole: the collision loop misses at most as often as there are names in use |
| ToolAliases.CandidatesDistinct | packages/agent-runtime-pi/src/index.ts:100-102 | candidates of different collision numbers are different, truncation included |
| ToolAliases.RuntimeToolAliases | packages/agent-runtime-pi/src/index.ts:83-109 | the loops terminate and compute these aliases |
| ToolAliases.ReverseAliases | packages/agent-runtime-pi/src/index.ts:483-485 | the reverse map recovers every canonical name |
| ToolAliases.NormalizedIs | packages/agent-runtime-pi/src/index.ts:93 | a name normalises to its characters, unsafe ones as underscores, without the underscores at both ends, or to "tool" |
| ToolAliases.MadeUpAliases | packages/agent-runtime-pi/src/index.ts:94-103 | a made-up alias is what fits of that, with its suffix whole behind it |
| ToolAliases.NameHashIs | packages/agent-runtime-pi/src/index.ts:72-79 | the hash is printed in base 36 |
| ToolAliases.HashVectors | packages/agent-runtime-pi/src/index.ts:72-79 | test vectors of 32-bit FNV-1a |
| ToolAliases.ValidNameKeepsItself | packages/agent-runtime-pi/src/index.ts:88-104 | an acceptable name that occurs once, anywhere in the list, is its own alias when it is neither the hashed nor a numbered alias of an earlier name |
| ToolAliases.ValidNameIsLost | packages/agent-runtime-pi/src/index.ts:88-104 | it is not when it is the hashed alias of an earlier unacceptable name whose plain alias is wanted by an acceptable name or an earlier unacceptable one |
| ToolAliases.ValidNameKeepsItselfIff | packages/agent-runtime-pi/src/index.ts:88-104 | in lists whose earlier names do not clash that is the only way: if and only if |
| ToolAliases.ValidNameCanBeTaken | packages/agent-runtime-pi/src/index.ts:93-98 | for every unacceptable name that normalises to at most 120 characters, a list of three different names in which an acceptable one loses itself |
| AsyncQueue.SingleReaderIsServed | packages/agent-runtime-pi/src/index.ts:214-240 | with one reader, as each run iterates its queue once, over every run: what was delivered is a prefix of what was pushed before the close, and the reader is never parked while a value waits or after the close |
| AsyncQueue.ReaderFinishes | packages/agent-runtime-pi/src/index.ts:230-238 | once closed, each turn of the reader delivers the next value, whatever else is called in between, and one turn more ends it with everything delivered in order |
| AsyncQueue.OnlyTheWaiterIsWoken | packages/agent-runtime-pi/src/index.ts:216-236 | why the queue is for one reader: a parked reader that does not hold the slot is woken by no later step |
| AsyncQueue.WokenIff | packages/agent-runtime-pi/src/index.ts:219-229 | a push to an open queue, or its close, wakes a parked reader if and only if it holds the slot |
| AsyncQueue.EventQueue.PushValue | packages/agent-runtime-pi/src/index.ts:219-224 | the new state of a push and whom it wakes |
| AsyncQueue.EventQueue.Close | packages/agent-runtime-pi/src/index.ts:225-229 | the new state of a close and whom it wakes |
| AsyncQueue.EventQueue.Next | packages/agent-runtime-pi/src/index.ts:230-238 | one turn of a reader: the first value, the end, or parking |
| GitStatus.StatusRoundTrip | packages/git-service/src/git.ts:188-264 | parsing what git prints for any records gives back the branch facts and, in order, the entries their state letters imply, the first for each path and group |
| GitStatus.StatusRoundTripIff | packages/git-service/src/git.ts:188-264 | nothing is dropped if and only if no two entries share path and group, as when no two records share a path |
| GitStatus.DedupIsApart | packages/git-service/src/git.ts:255-262 | each path and group that occurs is kept, once |
| GitStatus.TrackedConflictIsOne | packages/git-service/src/git.ts:224-239 | a tracked record with a conflict on either side is one entry, a conflict |
| GitStatus.RecordsParse | packages/git-service/src/git.ts:195-253 | parsing goes record by record and never reads a rename's original path as one |
| GitStatus.WordsParse | packages/git-service/src/git.ts:210-223 | paths with spaces come back whole |
| GitStatus.ReadStatus | packages/git-service/src/git.ts:188-264 | the loop with its hand-advanced index computes this parse |
| GitStatus.FirstPerGroup | packages/git-service/src/git.ts:255-262 | each group lists a path once, the first entry |
| Fuzzy.MatchIsExact | packages/foundation/src/fuzzy.ts:7-51 | a match is reported if and only if the lowercased query is a subsequence of the lowercased target, at pointwise least positions, with a score between the query length and 16 times it plus 20 |
| Fuzzy.ScoreCounts | packages/foundation/src/fuzzy.ts:31-49 | a score is one for each character, 8 for each start of a word, 6 for each capital behind a letter, 5 for each right behind the one before, 2 for each in the base name, and up to 20 for shortness |
| Fuzzy.FuzzyScore | packages/foundation/src/fuzzy.ts:7-51 | the nested loops compute that match and its score |
| Fuzzy.FilterIsTopK | packages/foundation/src/fuzzy.ts:59-72 | the filter returns the best matches in order, as many as the limit allows, nothing it leaves out scores higher, and equal scores keep the order of the items |
| Fuzzy.MatchesAre | packages/foundation/src/fuzzy.ts:65-69 | an item is ranked with a score and positions if and only if it matches with them |
| Fuzzy.FuzzyFilter | packages/foundation/src/fuzzy.ts:59-72 | the loop, the stable sort and the slice compute that selection |

## Left out

- Failures of reads, writes and renames, temporary files, directories, symbolic links and path containment.
- Interleaving inside one asynchronous method.
- Events to listeners, record ids, timestamps, tool call ids and the stored patch text of a record.
- The change set's final sort by locale; files are in order of first touch.
- Several tasks at once, and which records belong to a turn; here a turn is a stretch of the task's steps with all its records.
- `fileContents`, `dirtyDocuments`, `closeAll`, `BlobStore.has` and similar accessors: easy members.
- Hunk keys as truncated digests: a key carries the hunk's lines themselves.
- The text form of diffs beyond the printed lines of a hunk.
- HunkReview.RejectOnce: is about closed files whose text, before and now, has no NUL and no line that starts with a byte-order mark (RejectOnOpenDocument is about open ones); it assumes that the diff library's diffs are correct, let only the last hunk reach the end of the text, and change as few lines as any other such diff, and that it applies the reverse of its own hunks to the text they were shown for where strict application succeeds; nothing is assumed of other texts and hunks.
- The remote worker's git-backed baselines, excluded directories, the umask, request decoding and the size limit of the encoded request; the order of a directory walk and of sorted paths is a parameter.
- Changes to files during a remote diff, which the worker answers with an error.
- The meaning of a recording's lines: JSON parsing, clip windows and the motion analyzer; and the reset of a segment whose fingerprint changed.
- ToolAliases.AliasesAreSafeAndDistinct: for lists of at most 2^32 - 1 names, the longest a host array can hold.
- ToolAliases.RuntimeToolAliases: names are sequences of characters rather than UTF-16 code units, in the hash, in the replacement of characters and in lengths.
- ToolAliases.ValidNameKeepsItself: one direction; the other is ValidNameIsLost, and the two meet in ValidNameKeepsItselfIff.
- ToolAliases.ValidNameKeepsItselfIff: where earlier names differ and no hashed alias clashes with another name, so that no collision numbers are needed; past that whether a number is tried depends on every alias before.
- GitStatus.StatusRoundTrip: ignored records ('!') are not printed, since the command does not ask for them.
- `numstat()` and the building of prior-conversation messages: simpler variants of what is here.
- Fuzzy.MatchIsExact: case folding is that of ASCII.
