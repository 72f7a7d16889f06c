# OmegaEdit: verified core

This project models the parts of OmegaEdit whose correctness rests on an argument, and proves it:

- **Checkpoint timeline** (`Manifest`, `Branch`, `TimelineRuns`, `Chronicle`, `TimelineSession`): the manifest of a
  session, its validator, the operations of a session with a fault injector that can make any point fail or end the
  process, and theorems over whole runs of such operations.
- **Quota ledger** (`Quota`, `Ledger`, `Accounts`): the shared index of session charges, and any number of managers that
  take turns through the lock file.
- **Editing core** (`EditModel`, `EditRead`, `EditHistory`, `Transactions`, `EditSession`): the segments a document is
  made of, reading through them, transactions with undo and redo, snapshots, and rebuilding.
- **Codecs** (`Base58`, `Ascii85`, `Base32` over `Bits`, `Base64`, `Transcode`, `Xml`): loops over unbounded input and
  the round trips they promise; `Alphabets`, `Notations` and `Unicode` say what they write in terms of values, bits and
  the standards.
- **Checksums** (`Streaming`, `Words`, `Murmur3`, `XxHash`, `Crc`, `WordSums`): state carried across chunks of any size
  against one-shot definitions; `CrcDivision` proves the CRC to be polynomial division, `CrcCheck` and `HashCheck` prove
  the check values.
- **Replay** (`Replay`) and **range maps** (`RangeMap`, `RangeIds`).

`dafny verify dfyconfig.toml` checks the whole project.

## Reading the model

Code that changes state is a class or a method with its loops; each is tied by its contract to a function on values,
and the theorems are about those functions. Bytes and fingerprints are integers and values with the source's
wrap-around and limits written out, the words of the hashes are bit vectors. A host that may cancel is a function `poll`, a reader that may return less than
asked is a function `granted`, a fault injector is a function from fault points to what happens there, and the bytes a
session owns on disk are arguments of the ledger operations. Cancellation can only turn a result into a failure.

## Where the code falls short of a law one might expect

Each of these has a lemma or method with the input, and one that says exactly when the law holds.

- A transaction is not always undone as a whole and alone. When its edits have been undone and it goes on editing, the
  new edits take the bit of the change before the transaction, and one undo takes back that change too
  (`Transactions.TransactionTakesEarlierEdit`, `EditSession.UndoTakesEarlierEdit`; exactly when:
  `Transactions.TransactionIsUndoneWhole`, `Transactions.JoinedExactly`).
- Base58: an input without a nonzero byte does not come back; n zero bytes become n + 2 (`Base58.DecodeText`,
  `Base58.RoundTripExactly`).
- A capture that fails removes the file named after its checkpoint even when another capture has stored that checkpoint
  meanwhile (`TimelineRuns.InterleavedCapturesLoseAnArchive`; exactly when: `TimelineRuns.FailedCaptureKeepsArchives`).
- The saved content can be called off branch although an earlier boundary has the saved content
  (`Branch.OffBranchInError`, `TimelineRuns.FlagGoesWrong`; exactly when: `Branch.TruncatedOffBranch`,
  `TimelineRuns.RunKeepsFlag`).
- An index operation can report an error after its write (`Ledger.WrittenYetReportedFailed`), exactly when the lock
  cannot be given back (`Ledger.Store.WithIndexLock`).
- After an extension the charge can fall short of the baseline and the written bytes when the session shrank meanwhile
  (`Quota.ExtensionFallsShort`; exactly when: `Quota.ExtensionCovers`).
- UTF-16 decoding lets unpaired low surrogates through. UTF-32 carries them, but the way back to UTF-16 refuses them,
  and so do the other sets (`Transcode.LoneLowIsLost`; exactly when: `Transcode.RoundTripExactly`).
- Base64 decoding accepts texts with nonzero spare bits, which encode back to another text
  (`Base64.SpareBitsAreLost`; exactly when: `Base64.ReencodedExactly`).

## Model

| member | source | states |
|---|---|---|
| TimelineRuns.RunKeepsInv | vscode-extension/src/checkpointTimelineStorage.ts:1085-1513 | in every state of every run (any operations, each cut anywhere, captures overlapping the rest) the committed manifest is sound, memory equals it while the session is open and the process lives, and every request accepted so far is outdated or still continues the branch |
| Chronicle.RunTold | vscode-extension/src/checkpointTimelineStorage.ts:1085-1513 | in every state of every run the manifest, on disk and in the memory of a live process, is what the operations committed so far say: each entry has the request, archive or failure of the operation that stored it last and the reason it was marked with since, the saved content is the normalized one recorded last, the cursor is where it was moved last, and the generation counts the changes of the branch |
| Chronicle.StepTold | vscode-extension/src/checkpointTimelineStorage.ts:743-766 | the same for one step, complete, failed, refused or cut by a crash |
| Chronicle.CommitTold | vscode-extension/src/checkpointTimelineStorage.ts:1203-1248 | the same for one committed operation |
| Chronicle.CommitsExactly | vscode-extension/src/checkpointTimelineStorage.ts:1088-1112 | an operation can be committed exactly when its arguments are acceptable: current generation and continuing fingerprints, complete archive, number within the branch, well-formed fingerprint; the validator refuses nothing else |
| Chronicle.SavedExactly | vscode-extension/src/checkpointTimelineStorage.ts:1462-1479 | recording the saved content records the given one, finds the least boundary that has it or none when none has, and changes nothing else |
| Chronicle.SavedFollows | vscode-extension/src/checkpointTimelineStorage.ts:1240-1246 | every other operation keeps the saved content; its checkpoint moves to a new boundary that has it and is dropped when it is cut off |
| TimelineRuns.SerializedKeepsArchives | vscode-extension/src/checkpointTimelineStorage.ts:1085-1259 | when captures are not interleaved, every ready entry has its archive on disk with the recorded length, hash and fingerprints, whatever faults and crashes occur |
| TimelineRuns.RunKeepsArchives | vscode-extension/src/checkpointTimelineStorage.ts:1085-1259 | the same for interleaved captures, as long as none finishes on a checkpoint that is ready already |
| TimelineRuns.FailedCaptureKeepsArchives | vscode-extension/src/checkpointTimelineStorage.ts:1253-1258 | the clean-up of a failed capture keeps every archive if and only if its checkpoint is not a ready entry by then |
| TimelineRuns.InterleavedCapturesLoseAnArchive | vscode-extension/src/checkpointTimelineStorage.ts:1193-1197 | a run of two captures accepted for one checkpoint that ends without the committed archive |
| TimelineRuns.RunKeepsFlag | vscode-extension/src/checkpointTimelineStorage.ts:1415-1427 | the off-branch flag is exact in every state of a run, in memory and on disk, if and only if no truncation along it cut off the saved checkpoint while it kept a boundary with the saved content |
| TimelineRuns.StepKeepsFlag | vscode-extension/src/checkpointTimelineStorage.ts:1400-1483 | the same for one step, complete, failed or cut by a crash |
| TimelineRuns.CommitKeepsFlag | vscode-extension/src/checkpointTimelineStorage.ts:1240-1246 | the same for whatever manifest an operation commits |
| TimelineRuns.FlagGoesWrong | vscode-extension/src/checkpointTimelineStorage.ts:1415-1427 | a run of two records and a truncation that ends with the flag set in error |
| TimelineRuns.FirstCaptureSteps | vscode-extension/src/checkpointTimelineStorage.ts:1198-1250 | a complete archive on a fresh session commits: the opening step of the run of two captures |
| TimelineRuns.StaleRequestsAreDead | vscode-extension/src/checkpointTimelineStorage.ts:1098-1103 | after a truncation no capture or unavailable record with an earlier generation ever changes memory or disk again |
| TimelineRuns.GenerationsNeverFall | vscode-extension/src/checkpointTimelineStorage.ts:1233-1239 | the next generation never decreases along a run |
| TimelineRuns.TruncationRaises | vscode-extension/src/checkpointTimelineStorage.ts:1408-1414 | a truncation that takes effect raises the next generation |
| TimelineRuns.WrongGeneration | vscode-extension/src/checkpointTimelineStorage.ts:1271-1279 | a request with another generation than the current one changes neither memory nor disk |
| TimelineRuns.StepKeepsInv | vscode-extension/src/checkpointTimelineStorage.ts:743-766 | one operation, complete, failed or cut by a crash, keeps the invariant and moves the branch on only with a new generation |
| TimelineRuns.StepKeepsArchives | vscode-extension/src/checkpointTimelineStorage.ts:1198-1257 | one operation keeps every archive unless it is a capture of a checkpoint that is ready already |
| TimelineRuns.CandidateIsSound | vscode-extension/src/checkpointTimelineStorage.ts:1233-1248 | whatever an operation commits is sound |
| TimelineRuns.BackedCapture | vscode-extension/src/checkpointTimelineStorage.ts:1198-1231 | a committed capture is backed by the archive it has put in place, and disturbs no other |
| TimelineRuns.BackedTruncate | vscode-extension/src/checkpointTimelineStorage.ts:1407-1438 | removing the archives of the dropped entries, all or some, leaves those of the kept ones |
| TimelineRuns.NotDropped | vscode-extension/src/checkpointTimelineStorage.ts:1432-1438 | no archive of a kept entry is among the files a truncation removes |
| TimelineRuns.UnreferencedFile | vscode-extension/src/checkpointTimelineStorage.ts:1120-1121 | writing or removing the file of a checkpoint that is not ready touches no archive in use |
| TimelineSession.Session.Commit | vscode-extension/src/checkpointTimelineStorage.ts:743-766 | the manifest is validated and replaced in one step: an error leaves the old one, a crash the old or the new one |
| TimelineSession.Session.Replace | vscode-extension/src/checkpointTimelineStorage.ts:1248-1250 | memory takes over a candidate only after the disk has it |
| TimelineSession.Session.BeginCapture | vscode-extension/src/checkpointTimelineStorage.ts:1088-1137 | accepts exactly the requests that continue the branch within the limits and the quota, and returns them normalized |
| TimelineSession.Session.FinishCapture | vscode-extension/src/checkpointTimelineStorage.ts:1138-1259 | one step of the state machine under any faults; the committed archive is the raw or the optimized one, never longer than the raw one; without faults a valid capture succeeds |
| TimelineSession.Session.PutInPlace | vscode-extension/src/checkpointTimelineStorage.ts:1190-1259 | the part of a capture that renames the winner and commits the manifest, with its clean-up |
| TimelineSession.Session.Abandon | vscode-extension/src/checkpointTimelineStorage.ts:1253-1258 | removes the archive name of a capture that did not commit, if removal works |
| TimelineSession.Session.AfterCommit | vscode-extension/src/checkpointTimelineStorage.ts:1251-1252 | a failed quota reconciliation is reported although the commit stands |
| TimelineSession.Session.RecordUnavailable | vscode-extension/src/checkpointTimelineStorage.ts:1262-1328 | one step; reports failure after a change only when the ledger update failed; without faults exactly the acceptable requests succeed |
| TimelineSession.Session.MarkIntervalUnavailable | vscode-extension/src/checkpointTimelineStorage.ts:1368-1398 | one step; a reported failure changed nothing; without faults exactly the entries of the branch are accepted |
| TimelineSession.Session.TruncateFuture | vscode-extension/src/checkpointTimelineStorage.ts:1400-1441 | one step, with the archives of the dropped entries removed as far as the faults allow; without faults exactly the places of the branch are accepted |
| TimelineSession.Session.RemoveFiles | vscode-extension/src/checkpointTimelineStorage.ts:1435-1438 | removes only files of the list, and all of them when nothing fails |
| TimelineSession.Session.SetCursor | vscode-extension/src/checkpointTimelineStorage.ts:1443-1458 | one step; a reported failure changed nothing, success changed the cursor to the one given and nothing else, and without faults exactly the places of the branch are accepted |
| TimelineSession.Session.SetSavedFingerprint | vscode-extension/src/checkpointTimelineStorage.ts:1460-1483 | one step; a reported failure changed nothing, success recorded the given content, normalized, with the least boundary that has it; without faults exactly the well-formed fingerprints are accepted |
| TimelineSession.Session.OpenInterval | vscode-extension/src/checkpointTimelineStorage.ts:1330-1366 | a closed session returns nothing; an open one only an archive that matches its entry, and one for exactly the ready entries while all archives are in place |
| TimelineSession.Session.CloseSession | vscode-extension/src/checkpointTimelineStorage.ts:1494-1498 | closes the session; its directory is gone unless the deletion failed |
| TimelineSession.CreateSession | vscode-extension/src/checkpointTimelineStorage.ts:599-650 | the original fingerprint is normalized, or refused when malformed, and the session starts with it |
| TimelineSession.Session.constructor | vscode-extension/src/checkpointTimelineStorage.ts:599-650 | a session made with a normalized fingerprint, as CreateSession makes it, starts with a sound empty timeline on disk and in memory |
| TimelineSession.TruncationSteps | vscode-extension/src/checkpointTimelineStorage.ts:1430-1438 | a committed truncation is a step of the state machine whichever dropped archives are gone |
| TimelineSession.DroppedFiles | vscode-extension/src/checkpointTimelineStorage.ts:1432-1434 | the list of files a truncation removes is the set of archives of the dropped entries |
| Manifest.ParsesToItself | vscode-extension/src/checkpointTimelineStorage.ts:440-563 | the validator returns a manifest unchanged if and only if it is well formed: contiguous numbers, an unbroken chain of normalized fingerprints, consistent states |
| Manifest.ParseGoodEntries | vscode-extension/src/checkpointTimelineStorage.ts:475-553 | the same for a list of entries after a given fingerprint |
| Manifest.ParseLast | vscode-extension/src/checkpointTimelineStorage.ts:476-504 | an entry the validator accepts after a good chain continues that chain |
| Manifest.ChainAt | vscode-extension/src/checkpointTimelineStorage.ts:477-504 | in a well-formed manifest every entry starts at the boundary before it |
| Manifest.NormalForms | vscode-extension/src/checkpointTimelineStorage.ts:208-247 | normalizing a fingerprint is idempotent and keeps equality, which is plain equality on normalized ones |
| Manifest.SortedUniqueSorts | vscode-extension/src/checkpointTimelineStorage.ts:1214-1216 | the plugin list written is sorted and has the same elements |
| Manifest.SortedIsUnique | vscode-extension/src/checkpointTimelineStorage.ts:505-514 | a sorted list without duplicates passes the plugin check |
| Manifest.FileNameInjective | vscode-extension/src/checkpointTimelineStorage.ts:1120 | within the checkpoint limit different checkpoints have different archive names |
| Manifest.FileNameIsIntervalFile | vscode-extension/src/checkpointTimelineStorage.ts:515-525 | an archive name passes the validator |
| Branch.AppendedIsSound | vscode-extension/src/checkpointTimelineStorage.ts:1233-1247 | a new entry keeps numbering, chain, rising generations, archive names and the saved checkpoint sound |
| Branch.TruncatedIsSound | vscode-extension/src/checkpointTimelineStorage.ts:1408-1428 | so does dropping the future |
| Branch.MarkedIsSound | vscode-extension/src/checkpointTimelineStorage.ts:1381-1393 | so does marking an interval unavailable |
| Branch.MarkedAlone | vscode-extension/src/checkpointTimelineStorage.ts:1390-1392 | exactly the named entry changes |
| Branch.MovedIsSound | vscode-extension/src/checkpointTimelineStorage.ts:1450-1454 | so does moving the cursor |
| Branch.SavedIsSound | vscode-extension/src/checkpointTimelineStorage.ts:1462-1479 | so does recording the saved content, which is then off branch exactly when no boundary has it |
| Branch.FirstMatchIsLeast | vscode-extension/src/checkpointTimelineStorage.ts:1463-1470 | the saved checkpoint is the first boundary with the saved content |
| Branch.TruncatedOffBranch | vscode-extension/src/checkpointTimelineStorage.ts:1415-1427 | truncation keeps the off-branch flag exact if and only if it does not cut off the saved checkpoint while an earlier boundary has the same content |
| Branch.OffBranchInError | vscode-extension/src/checkpointTimelineStorage.ts:1415-1427 | from a fresh manifest, to other content and back: truncating that leaves the flag set although the original boundary has the saved content |
| Branch.AppendedOffBranch | vscode-extension/src/checkpointTimelineStorage.ts:1240-1246 | a new entry keeps the off-branch flag exact |
| Branch.FreshIsSound | vscode-extension/src/checkpointTimelineStorage.ts:614-632 | the manifest of a new session is sound |
| Branch.AcceptedIsTicket | vscode-extension/src/checkpointTimelineStorage.ts:1089-1112 | an accepted request continues the branch at the current generation |
| Branch.TicketSurvives | vscode-extension/src/checkpointTimelineStorage.ts:1193-1197 | whatever happens meanwhile, an accepted request is outdated or still continues the branch |
| Branch.CapturedIsGood | vscode-extension/src/checkpointTimelineStorage.ts:1203-1232 | the entry of a complete archive passes the validator at the tip |
| Branch.MissingIsGood | vscode-extension/src/checkpointTimelineStorage.ts:1290-1308 | so does the entry of an unavailable interval |
| Branch.ParsedIsGood | vscode-extension/src/checkpointTimelineStorage.ts:476-504 | an entry that survives the commit of its manifest continues the chain |
| Branch.Winner | vscode-extension/src/checkpointTimelineStorage.ts:1157-1192 | the archive kept validates when the raw one does, is one of the two, is not longer than either valid one, and is the raw one when they are equally long |
| Ledger.RunKeepsQuota | vscode-extension/src/checkpointTimelineStorage.ts:780-839 | in every interleaving of any number of managers the index keeps each session within its limit and all of them within the total, and only the lock holder is inside |
| Ledger.RunIsSequential | vscode-extension/src/checkpointTimelineStorage.ts:780-839 | every interleaving leaves the index its written operations would leave one at a time: no update is lost |
| Accounts.RunAccounts | vscode-extension/src/checkpointTimelineStorage.ts:780-993 | in every state of every interleaving a session is in the index exactly when it was created and neither deleted nor cleaned up since; its bytes are what the last operation on it found on disk, its reservation is the grant, extension or reservation of that operation or zero after a failed deletion, its owner the one that created it |
| Accounts.AccountMore | vscode-extension/src/checkpointTimelineStorage.ts:818-825 | the same for one more written operation |
| Accounts.Charged | vscode-extension/src/checkpointTimelineStorage.ts:886-993 | what a charging operation writes for its session |
| Accounts.OthersUntouched | vscode-extension/src/checkpointTimelineStorage.ts:886-993 | an operation leaves the records of all sessions alone that it does not name |
| Accounts.GrantIsMost | vscode-extension/src/checkpointTimelineStorage.ts:899-925 | the grant is the most that the request, one chunk and both limits allow |
| Accounts.ExtensionIsLeast | vscode-extension/src/checkpointTimelineStorage.ts:951-965 | the extension is the least that makes up the written bytes in whole chunks |
| Accounts.RefusedExactly | vscode-extension/src/checkpointTimelineStorage.ts:857-993 | on an index within the limits an operation is refused exactly when the session is not its own or what it has to write would break the limits |
| Accounts.FitsExactly | vscode-extension/src/checkpointTimelineStorage.ts:870-882 | a charge fits exactly when writing it keeps the quota |
| Ledger.MutualExclusion | vscode-extension/src/checkpointTimelineStorage.ts:787-814 | two managers between taking and giving back the lock are one |
| Ledger.StepKeepsInv | vscode-extension/src/checkpointTimelineStorage.ts:815-829 | what the lock holder read or computed is still current when it writes |
| Ledger.DiskMoves | vscode-extension/src/checkpointTimelineStorage.ts:818-825 | the index changes only by a write, to what the written operation makes of the index before it |
| Ledger.Store.WithIndexLock | vscode-extension/src/checkpointTimelineStorage.ts:780-839 | success exactly without faults on a free lock and an accepted operation; an error with a changed index exactly when giving back the lock failed |
| Ledger.WrittenYetReportedFailed | vscode-extension/src/checkpointTimelineStorage.ts:818-839 | a creation on an empty index with a lock that cannot be given back: the session is in the index and the call reports failure |
| Ledger.Operate | vscode-extension/src/checkpointTimelineStorage.ts:857-993 | every operation computes the specified index or refuses |
| Ledger.Reserve | vscode-extension/src/checkpointTimelineStorage.ts:886-930 | the reservation as specified, and the bytes the caller may write |
| Ledger.Extend | vscode-extension/src/checkpointTimelineStorage.ts:932-981 | the extension as specified |
| Ledger.AssertQuota | vscode-extension/src/checkpointTimelineStorage.ts:857-884 | accepts exactly the charges that fit alone and together with all other sessions |
| Ledger.TotalOthers | vscode-extension/src/checkpointTimelineStorage.ts:864-868 | the sum over every session but one, whatever the order of visiting |
| Quota.ApplyKeepsQuota | vscode-extension/src/checkpointTimelineStorage.ts:857-993 | every operation that reads an index within the limits writes one within the limits |
| Quota.SetKeepsQuota | vscode-extension/src/checkpointTimelineStorage.ts:870-882 | a charge that fits can replace or add the session's record |
| Quota.LowerKeepsQuota | vscode-extension/src/checkpointTimelineStorage.ts:1057-1061 | a failed deletion only lowers the charge |
| Quota.RemoveKeepsQuota | vscode-extension/src/checkpointTimelineStorage.ts:666-704 | removing sessions keeps the limits |
| Quota.ExtensionCovers | vscode-extension/src/checkpointTimelineStorage.ts:951-977 | after an extension the charge covers the baseline and the bytes written if and only if the session has not shrunk below its baseline by more than the rounding makes up for |
| Quota.ExtensionFallsShort | vscode-extension/src/checkpointTimelineStorage.ts:951-977 | an accepted extension with baseline and written bytes of one chunk each, after the session shrank to nothing: the charge is one chunk short |
| Quota.GrantIsBounded | vscode-extension/src/checkpointTimelineStorage.ts:899-925 | a grant is positive, at most one chunk, and within what both limits leave |
| Quota.SumOut | vscode-extension/src/checkpointTimelineStorage.ts:864-868 | the sum of charges does not depend on the order of the sessions |
| EditSession.Session.Insert | core/src/lib/edit.cpp:2208-2224 | return code and effect for every input: refused, ignored, or the document with the bytes inserted, nothing left to redo, the segments spelling the document |
| EditSession.Session.Delete | core/src/lib/edit.cpp:2186-2206 | the same for a deletion, clamped to the end of the document |
| EditSession.Session.Overwrite | core/src/lib/edit.cpp:2239-2262 | the same for an overwrite, byte by byte: the data stands at the offset, every other byte stays, and the document grows when the data runs past its end |
| EditSession.Session.UndoLastChange | core/src/lib/edit.cpp:3140-3215 | takes back exactly the last transaction, from the captured bytes; the segments then spell the document without it |
| EditSession.Session.RedoLastUndo | core/src/lib/edit.cpp:3217-3248 | brings back exactly the transaction undone last |
| EditSession.Session.RestoreToChangeCount | core/src/lib/edit.cpp:3101-3138 | keeps exactly the first changes asked for, or refuses and changes nothing |
| EditSession.Session.RebuildToChangeCount | core/src/lib/edit.cpp:1160-1198 | the segments rebuilt from the nearest snapshot spell what the changes replay to from the file |
| EditSession.Session.Record | core/src/lib/edit.cpp:1216-1257 | appending a change, updating the segments and taking a snapshot keeps all of them in agreement |
| EditSession.Session.Update | core/src/lib/edit.cpp:1216-1257 | a new edit drops everything undone |
| EditSession.Session.ComputedFileSize | core/src/lib/session.cpp:115-126 | the end of the last segment is the length of the document |
| EditSession.Session.Capture | core/src/lib/edit.cpp:1626-1662 | the bytes captured are the document's bytes in that range |
| EditSession.Session.BeginTransaction | core/src/lib/session.cpp:271-278 | opens a transaction unless one is open |
| EditSession.Session.EndTransaction | core/src/lib/session.cpp:280-289 | ends the transaction if there is one |
| EditSession.Session.constructor | core/src/lib/edit.cpp:407-427 | a new session spells its file, has nothing to undo or redo and no transaction open |
| EditSession.UpdateModel | core/src/lib/edit.cpp:1146-1158 | applying a change to the segments spells the changed document |
| EditSession.UndoInModel | core/src/lib/edit.cpp:1102-1133 | taking back a change from its captured bytes spells the document before it |
| EditSession.TakeBack | core/src/lib/edit.cpp:1135-1144 | taking back changes latest first spells the document before all of them |
| EditSession.CountRun | core/src/lib/edit.cpp:3161-3167 | the length of the last run of one transaction bit |
| EditSession.NearestSnapshot | core/src/lib/edit.cpp:1169-1177 | the greatest snapshot not above the count |
| EditHistory.RedoAfterUndo | core/src/lib/edit.cpp:3140-3248 | redo after undo is the identity on both stacks, and undo keeps the timeline |
| EditHistory.UndoAfterRedo | core/src/lib/edit.cpp:3140-3248 | undo after redo is the identity on both stacks, and redo keeps the timeline |
| EditHistory.MoveBack | core/src/lib/edit.cpp:3161-3205 | moving the last run between the stacks and back changes nothing and never merges two transactions |
| Transactions.TransactionIsUndoneWhole | core/src/lib/edit.cpp:1376-1389 | for every sequence of calls between begin and end, after any history: the timeline is the earlier changes that still stand followed by the transaction's own edits, and one undo takes back all of those and nothing else if and only if the first of them was not made on top of an earlier change; otherwise it takes back more |
| Transactions.JoinedExactly | core/src/lib/edit.cpp:1376-1389 | that exception, call by call: some edit was made in progress while the list was not empty and held none of the transaction's edits, and no later edit or restore has cut off everything since |
| Transactions.CarefulCallsNeverJoin | core/src/lib/edit.cpp:1376-1389 | a caller who edits in a transaction only while the list is empty or ends in one of its edits never meets the exception |
| Transactions.TransactionTakesEarlierEdit | core/src/lib/edit.cpp:1376-1389 | edit, begin, edit, undo, edit, end, undo: the exception, for any three edits; the last undo leaves nothing |
| Transactions.SingleEditIsUndoneAlone | core/src/lib/edit.cpp:1376-1389 | an edit outside a transaction is undone alone |
| Transactions.CallsKeep | core/src/lib/session.cpp:271-302 | what every call between begin and end keeps: the own edits share one bit and stand on a prefix of the earlier timeline |
| Transactions.CallsSeparate | core/src/lib/edit.cpp:3140-3248 | no sequence of calls on a new session puts one transaction on both stacks |
| Transactions.UndoOfRun | core/src/lib/edit.cpp:3161-3167 | one undo takes back the last changes of one bit: exactly those from a given position if they are a run, more if the change before has the same bit |
| EditSession.UndoTakesEarlierEdit | core/src/lib/session.cpp:529-532 | the failing run carried out on a session: of the edit before the transaction and the one in it, the last undo leaves neither |
| EditHistory.OverwrittenBytes | core/src/lib/edit.cpp:1146-1158 | every byte and the length of a document after an overwrite |
| EditHistory.UndoRestores | core/src/lib/edit.cpp:1102-1133 | taking back a change restores the document it was made on |
| EditHistory.FitsAlways | core/src/lib/edit.cpp:2208-2216 | no reachable document is longer than an int64 can say |
| EditModel.DeleteRange | core/src/lib/edit.cpp:951-1003 | fails exactly beyond the end; otherwise the segments stay contiguous and spell the document without the range |
| EditModel.InsertAt | core/src/lib/edit.cpp:1037-1100 | fails exactly beyond the end; otherwise the segments stay contiguous and spell the document with the bytes inserted |
| EditModel.SplitAt | core/src/lib/edit.cpp:951-976 | a boundary at the offset, the same document |
| EditModel.DeleteFront | core/src/lib/edit.cpp:979-1003 | erasing, trimming and shifting segments drops exactly the bytes asked for |
| EditModel.TrimFront | core/src/lib/edit.cpp:984-994 | a trimmed segment moves to the deletion point and loses its first bytes |
| EditModel.CutMeaning | core/src/lib/edit.cpp:964-975 | splitting a segment spells the same document |
| EditModel.ShiftOffsets | core/src/lib/edit.cpp:996-1001 | shifts every offset by the same amount |
| EditRead.Populate | core/src/lib/impl_/internal_fun.cpp:44-136 | reads exactly the requested bytes of the document, cut at its end; fails exactly for an offset outside it |
| EditRead.UpperBound | core/src/lib/impl_/internal_fun.cpp:59-66 | the first segment after the offset |
| EditRead.Coalesce | core/src/lib/impl_/internal_fun.cpp:83-102 | consecutive file segments read as one stretch are the document's bytes |
| EditRead.ReadFrom | core/src/lib/impl_/internal_fun.cpp:76-131 | the loop over segments reads the document's bytes in order |
| EditRead.ReadSegment | core/src/lib/impl_/internal_fun.cpp:76-124 | one turn of that loop |
| EditRead.LastOrContaining | core/src/lib/impl_/internal_fun.cpp:68-73 | the segment found contains the offset exactly when the document does |
| Notations.Base58Value | plugins/src/text_codecs.cpp:221-255 | the text is a base-58 numeral of the same value as the bytes, every digit weighed by its place, with a 1 for each leading zero byte |
| Notations.Ascii85Value | plugins/src/text_codecs.cpp:489-504 | a full group is written as the five base-85 digits of its big-endian value, or as z when that is zero |
| Notations.Base64Bits | plugins/src/base64.c:143-156 | for every input the symbols hold the bits of the bytes six at a time and in order, zero bits filling up the last one (section 4 of RFC 4648) |
| Alphabets.Base58Alphabet | plugins/src/text_codecs.cpp:224 | the alphabet, symbol by symbol |
| Alphabets.Base32Alphabet | plugins/src/text_codecs.cpp:165 | the same |
| Alphabets.CrockfordAlphabet | plugins/src/text_codecs.cpp:165 | the same |
| Alphabets.Base64Alphabet | plugins/src/base64.c:22 | the same |
| Alphabets.Z85Alphabet | plugins/src/text_codecs.cpp:483-484 | the same |
| Alphabets.Ascii85Alphabet | plugins/src/text_codecs.cpp:499 | the same |
| Base58.RoundTripExactly | plugins/src/text_codecs.cpp:221-294 | decoding an encoding gives the input back if and only if both fit the cap and some byte is not zero |
| Base58.DecodeText | plugins/src/text_codecs.cpp:257-294 | what decoding an encoding gives in every case: n zero bytes come back as n + 2 |
| Base58.Encode | plugins/src/text_codecs.cpp:221-255 | the leading ones and digits the value and the leading zeros call for; cancellation only turns it into failure |
| Base58.Decode | plugins/src/text_codecs.cpp:257-294 | the leading zeros and bytes the symbols call for, or refusal |
| Base58.ConvertBytes | plugins/src/text_codecs.cpp:225-240 | the digit vector is the unique base-58 numeral of the big-endian value |
| Base58.ConvertSymbols | plugins/src/text_codecs.cpp:261-279 | the byte vector is the unique base-256 numeral of the symbols' value; fails exactly on a foreign symbol |
| Base58.MultiplyAdd | plugins/src/text_codecs.cpp:228-239 | one pass multiplies the number by the other base and adds a digit |
| Base58.PushCarry | plugins/src/text_codecs.cpp:236-239 | the carry is appended digit by digit |
| Base58.ScaledMeaning | plugins/src/text_codecs.cpp:228-239 | the pass keeps the numeral free of leading zeros and has the value announced |
| Base58.CanonicalIsUnique | plugins/src/text_codecs.cpp:225-240 | a numeral without leading zeros is determined by its value |
| Base58.DigitsOfCanonical | plugins/src/text_codecs.cpp:225-240 | every number has such a numeral, with its value |
| Base58.EmitLeadingZeros | plugins/src/text_codecs.cpp:242-249 | one symbol for every leading zero byte |
| Base58.EmitLeadingOnes | plugins/src/text_codecs.cpp:281-288 | one zero byte for every leading one |
| Ascii85.PluginRoundTrip | plugins/src/text_codecs.cpp:643-650 | whatever the plugin encodes it decodes to the same bytes, with the Z85 length rules |
| Ascii85.RoundTrip | plugins/src/text_codecs.cpp:481-555 | the round trip for every Ascii85 input and every Z85 input of whole groups |
| Ascii85.GroupRoundTrip | plugins/src/text_codecs.cpp:489-504 | a full, partial or zero group followed by anything decodes to itself |
| Ascii85.PaddedBytes | plugins/src/text_codecs.cpp:545-553 | padding a partial group with digit 84 and truncating recovers its bytes |
| Ascii85.NoWrap | plugins/src/text_codecs.cpp:537-538 | the 32-bit accumulator does not wrap below 2^32 |
| Ascii85.Z85Length | plugins/src/text_codecs.cpp:645 | Z85 output has five symbols for four bytes |
| Ascii85.Encode | plugins/src/text_codecs.cpp:481-507 | encodes as specified; cancellation only turns it into failure |
| Ascii85.Decode | plugins/src/text_codecs.cpp:519-555 | decodes as specified, refusing a misplaced z, a foreign byte and a lone digit |
| Ascii85.EncodeGroup | plugins/src/text_codecs.cpp:489-504 | the text of one group |
| Ascii85.PackGroup | plugins/src/text_codecs.cpp:490-491 | four bytes as one 32-bit number, missing ones zero |
| Ascii85.SplitDigits | plugins/src/text_codecs.cpp:496-501 | the five base-85 digits |
| Ascii85.Accumulate | plugins/src/text_codecs.cpp:548-549 | the wrapping 32-bit accumulator |
| Base32.RoundTrip | plugins/src/text_codecs.cpp:163-219 | the round trip for both alphabets and every input |
| Base32.Encode | plugins/src/text_codecs.cpp:163-184 | the input's bits five at a time, padded with zero bits and, in the standard alphabet, with pads |
| Base32.Drain | plugins/src/text_codecs.cpp:174-178 | at most twelve live bits, of which whole quintets are emitted |
| Base32.Padded | plugins/src/text_codecs.cpp:180-182 | padding to a multiple of eight |
| Base32.Decode | plugins/src/text_codecs.cpp:200-219 | the whole bytes the symbols' bits spell, or refusal |
| Base32.PushByte | plugins/src/text_codecs.cpp:172-173 | shifting a byte into the wrapping buffer loses no live bit |
| Base32.PushQuintet | plugins/src/text_codecs.cpp:211-212 | shifting a quintet into the wrapping buffer loses no live bit |
| Base32.PopQuintet | plugins/src/text_codecs.cpp:174-178 | the next quintet of the live bits |
| Base32.PopByte | plugins/src/text_codecs.cpp:213-216 | the next byte of the live bits |
| Base32.LastQuintet | plugins/src/text_codecs.cpp:179 | the final partial quintet |
| Bits.ConcatFilled | plugins/src/text_codecs.cpp:163-184 | padding the bits to whole quintets adds fewer zero bits than a quintet has |
| Bits.WholeConcat | plugins/src/text_codecs.cpp:213-216 | fewer than eight trailing bits yield no extra byte |
| Bits.Truncated | plugins/src/text_codecs.cpp:172 | the bits a wrapping 32-bit buffer loses lie above the live ones |
| Base64.RoundTrip | plugins/src/base64.c:94-196 | a text that is an encoding with whitespace inserted anywhere decodes to the input |
| Base64.PlainRoundTrip | plugins/src/base64.c:130-196 | so does the encoding itself |
| Base64.ReencodedExactly | plugins/src/base64.c:130-196 | encoding what a text decodes to gives the text back, whitespace aside, if and only if the spare bits before its padding are zero |
| Base64.SpareBitsAreLost | plugins/src/base64.c:185-189 | QR== decodes to a byte that is encoded as QQ== |
| Base64.QuartetCanonical | plugins/src/base64.c:185-189 | the same for one quartet |
| Base64.EncodedMeaning | plugins/src/base64.c:143-156 | the encoder's output is in the grammar and its quartets hold the input |
| Base64.GroupRoundTrip | plugins/src/base64.c:145-155 | one quartet holds its group |
| Base64.Validate | plugins/src/base64.c:94-128 | accepts exactly the grammar: quartets, padding only at the end; reports length and padding |
| Base64.RefusedRightly | plugins/src/base64.c:105-114 | no continuation of a refused text is in the grammar |
| Base64.AcceptedWhole | plugins/src/base64.c:118-127 | what was accepted at a quartet boundary is the grammar |
| Base64.Encode | plugins/src/base64.c:130-161 | fills exactly the allocated buffer with the encoding |
| Base64.Decode | plugins/src/base64.c:163-196 | fills exactly the allocated buffer with the decoded bytes |
| Base64.StoreQuartet | plugins/src/base64.c:185-190 | writes three bytes, or what is left of the buffer |
| Base64.EncodedLength | plugins/src/base64.c:137 | the allocated length is the length of the encoding |
| Base64.GuardRulesOutOverflow | plugins/src/base64.c:135 | every length the guard accepts is free of int64 overflow; the exact limit is three bytes higher |
| Transcode.Utf8Sound | plugins/src/character_transcode.cpp:56-90 | what the UTF-8 decoder accepts is a scalar sequence whose encoding is the input (section 4 of RFC 3629) |
| Transcode.Utf8Complete | plugins/src/character_transcode.cpp:35-90 | it accepts the encoding of every scalar sequence and returns it |
| Unicode.Utf8Exactly | plugins/src/character_transcode.cpp:56-90 | a text decodes to given code points exactly when it is made of characters of the byte-range syntax of section 4 of RFC 3629 whose payload bits spell them |
| Unicode.Utf8Bits | plugins/src/character_transcode.cpp:35-54 | of every scalar value the encoder makes a character of that syntax, whose payload bits are those of the value |
| Unicode.Front8Exactly | plugins/src/character_transcode.cpp:60-86 | the decoder reads a character of n bytes exactly where the syntax has one |
| Unicode.Utf16Words | plugins/src/character_transcode.cpp:129-144 | a scalar value is one word, or a high and a low surrogate holding ten bits each of what exceeds 0x10000 |
| Unicode.WordOrder | plugins/src/character_transcode.cpp:92-110 | which byte of a word weighs what in either byte order |
| Transcode.Utf8LosesOthers | plugins/src/character_transcode.cpp:35-54 | a sequence with a surrogate or an oversized value cannot pass through UTF-8 |
| Transcode.Utf16Complete | plugins/src/character_transcode.cpp:112-144 | UTF-16 in either byte order carries every scalar sequence |
| Transcode.Utf16Sound | plugins/src/character_transcode.cpp:112-144 | an accepted UTF-16 text of scalar values is encoded back to itself |
| Transcode.Utf16RefusesOthers | plugins/src/character_transcode.cpp:129-144 | the UTF-16 encoder accepts exactly the scalar sequences |
| Transcode.Utf32Complete | plugins/src/character_transcode.cpp:146-154 | UTF-32 in either byte order carries every sequence of 32-bit values |
| Transcode.Utf32Sound | plugins/src/character_transcode.cpp:146-154 | an accepted UTF-32 text is encoded back to itself |
| Transcode.RoundTripExactly | plugins/src/character_transcode.cpp:404 | a text converted to another character set and back is unchanged if and only if its words spell scalar values (no lone low surrogate in UTF-16, every word a scalar value in UTF-32, no condition in UTF-8) or both sets are UTF-32 |
| Transcode.ScalarWords16 | plugins/src/character_transcode.cpp:112-127 | an accepted UTF-16 text decodes to scalar values if and only if none of its words is a low surrogate without a high one before it |
| Transcode.ScalarWords32 | plugins/src/character_transcode.cpp:146-154 | an accepted UTF-32 text decodes to scalar values if and only if every word is one |
| Transcode.LoneLowIsLost | plugins/src/character_transcode.cpp:112-127 | the little-endian bytes 00 DC are accepted as UTF-16 and come back from none of the sets |
| Transcode.Utf8Survives | plugins/src/character_transcode.cpp:404 | every accepted UTF-8 text survives the way to any of the sets and back |
| Transcode.NotCarried | plugins/src/character_transcode.cpp:112-127 | a text with other values does not survive |
| Transcode.CharsetComplete | plugins/src/character_transcode.cpp:308-350 | each character set carries every scalar sequence |
| Transcode.CharsetSound | plugins/src/character_transcode.cpp:308-350 | each decoder accepts only what the encoder gives back |
| Transcode.DecodeUtf8 | plugins/src/character_transcode.cpp:56-90 | the loop returns the specified sequence or refuses |
| Transcode.EncodeUtf8 | plugins/src/character_transcode.cpp:340-345 | the same for the encoder |
| Transcode.ReadWord | plugins/src/character_transcode.cpp:92-100 | the number a word spells in its byte order |
| Transcode.WriteWord | plugins/src/character_transcode.cpp:102-110 | the word a number is spelled by in its byte order |
| Transcode.DecodeUtf16 | plugins/src/character_transcode.cpp:112-127 | the loop returns the specified sequence or refuses |
| Transcode.EncodeUtf16 | plugins/src/character_transcode.cpp:129-144 | the same for the encoder |
| Transcode.DecodeFixedWidth | plugins/src/character_transcode.cpp:146-154 | the loop returns the specified sequence or refuses |
| Transcode.EncodeFixedWidth | plugins/src/character_transcode.cpp:347-350 | the same for the encoder |
| Transcode.Apply | plugins/src/character_transcode.cpp:393-406 | decodes and encodes, or refuses |
| Xml.RoundTrip | plugins/src/record_text_helpers.cpp:124-168 | the five passes map the escaped text back to the text, for every text |
| Xml.OnePass | plugins/src/record_text_helpers.cpp:151-158 | a pass turns a text with the remaining entities escaped into one with one entity fewer, although it rescans what earlier passes changed |
| Xml.AllPasses | plugins/src/record_text_helpers.cpp:160-168 | from any pass on, the remaining passes recover the text |
| Xml.FivePasses | plugins/src/record_text_helpers.cpp:160-168 | the order of the passes, with the ampersand last |
| Xml.Escape | plugins/src/record_text_helpers.cpp:124-149 | the five special characters replaced by their entities |
| Xml.Unescape | plugins/src/record_text_helpers.cpp:160-168 | the five passes in their order |
| Xml.EscapedByTable | plugins/src/record_text_helpers.cpp:124-149 | the escaped text, character by character |
| Xml.ReplaceAll | plugins/src/record_text_helpers.cpp:151-158 | replaces every occurrence from left to right, going on after the replacement |
| Xml.Find | plugins/src/record_text_helpers.cpp:153 | the first occurrence from a position on |
| Streaming.ForEachChunk | plugins/src/plugin_options.hpp:208-234 | delivers the content once and in order, whatever the reader grants; stops early only for a bad reader or a cancellation |
| Streaming.FoldedAppend | plugins/src/plugin_options.hpp:222-232 | folding whole blocks over a concatenation |
| Murmur3.Digest | plugins/src/common_checksums.cpp:212-274 | for every content and every way of reading it, the one-shot hash |
| Murmur3.State.Update | plugins/src/common_checksums.cpp:227-244 | the state after a chunk stands for all bytes seen |
| Murmur3.State.Final | plugins/src/common_checksums.cpp:246-273 | the hash of all bytes seen |
| Murmur3.State.FillTail | plugins/src/common_checksums.cpp:230-238 | completes the kept tail with the first bytes of the chunk |
| XxHash.Digest32 | plugins/src/common_checksums.cpp:276-355 | for every content and every way of reading it, the one-shot hash |
| XxHash.Digest64 | plugins/src/common_checksums.cpp:357-450 | the same for 64 bits |
| XxHash.State.Update | plugins/src/common_checksums.cpp:304-327 | the state after a chunk stands for all bytes seen |
| XxHash.State.OneShot | plugins/src/common_checksums.cpp:276-290 | the lanes are the fold of all full stripes and the buffer is the rest |
| XxHash.Final32 | plugins/src/common_checksums.cpp:329-354 | the hash of all bytes seen |
| XxHash.Final64 | plugins/src/common_checksums.cpp:415-449 | the hash of all bytes seen |
| XxHash.State.FillBuffer | plugins/src/common_checksums.cpp:312-318 | completes the buffered stripe with the first bytes of the chunk |
| HashCheck.MurmurCheck | plugins/tests/transform_plugin_tests.cpp:953 | the hash of the nine digits |
| HashCheck.XxHash32Check | plugins/tests/transform_plugin_tests.cpp:954 | the hash of the nine digits |
| HashCheck.XxHash64Check | plugins/tests/transform_plugin_tests.cpp:955 | the hash of the nine digits |
| HashCheck.LongText32 | plugins/src/common_checksums.cpp:292-303 | the hash of a text of 39 bytes, which goes through the lanes |
| HashCheck.LongText64 | plugins/src/common_checksums.cpp:375-393 | the same for 64 bits |
| CrcDivision.RegisterIsRemainder | plugins/src/common_checksums.cpp:115-138 | for every model, register and message, in both directions: the register times x^(8n) plus the message times x^width leaves the updated register when divided by the generator polynomial over the field of two elements |
| CrcDivision.RemainderIsUnique | plugins/src/common_checksums.cpp:115-138 | there is only one such remainder of degree below the width |
| CrcDivision.UpdateDivides | plugins/src/common_checksums.cpp:127-137 | the same for the most-significant-bit-first loop, with the quotient |
| CrcDivision.StepDivides | plugins/src/common_checksums.cpp:131-134 | one step multiplies by x and takes away the generator when that makes the degree too high |
| CrcCheck.CheckValues | plugins/tests/transform_plugin_tests.cpp:932-941 | the checksums of the nine digits for all ten models |
| Crc.Duality | plugins/src/common_checksums.cpp:115-138 | for every width, polynomial, state and text, the reflected loop on mirrored bytes from the reflected state is the reflection of the other loop |
| Crc.TwinChecksum | plugins/src/common_checksums.cpp:140-143 | the same for whole checksums |
| Crc.MirroredModels | plugins/src/common_checksums.cpp:145-190 | CRC-16 Kermit mirrors XMODEM, and CRC-32 mirrors CRC-32/BZIP2 |
| Crc.UpdatedAppend | plugins/src/common_checksums.cpp:115-138 | updating over a concatenation is updating twice |
| Crc.Digest | plugins/src/common_checksums.cpp:488-499 | for every content and every way of reading it, the one-shot checksum |
| Crc.ChunksDoNotMatter | plugins/src/common_checksums.cpp:115-138 | any division into chunks gives the same state |
| Crc.HighBitsIgnored | plugins/src/common_checksums.cpp:129-136 | bits above the width never affect the result of a byte step |
| Crc.Residue | plugins/src/common_checksums.cpp:129-137 | a message followed by its register leaves zero |
| Crc.FlushToZero | plugins/src/common_checksums.cpp:129-137 | feeding the register its own bytes empties it |
| Crc.FeedTop | plugins/src/common_checksums.cpp:131-134 | feeding the top byte shifts it out |
| Crc.Update | plugins/src/common_checksums.cpp:115-138 | the loop computes the specified state |
| Crc.Finalize | plugins/src/common_checksums.cpp:140-143 | reflection and final xor |
| Crc.ReflectBits | plugins/src/common_checksums.cpp:98-104 | bit i goes to width - 1 - i |
| WordSums.InternetChecksum | plugins/src/common_checksums.cpp:557-570 | for every content and every way of reading it, the one-shot checksum (section 1 of RFC 1071) |
| WordSums.RunningSum | plugins/src/common_checksums.cpp:569-570 | the running sum stays within 16 bits and is the one's-complement residue of the word total |
| WordSums.ChecksumVerifies | plugins/src/common_checksums.cpp:608-613 | an even message followed by its checksum has checksum zero |
| WordSums.WordOrderDoesNotMatter | plugins/src/common_checksums.cpp:569-570 | permuting the words keeps the checksum |
| WordSums.Settle | plugins/src/common_checksums.cpp:610 | the final carry loop ends after one turn |
| WordSums.Fletcher32Checksum | plugins/src/common_checksums.cpp:543-556 | for every content and every way of reading it, the one-shot checksum |
| WordSums.ReducedFold | plugins/src/common_checksums.cpp:555-556 | reducing at every word equals reducing once at the end |
| WordSums.FletcherClosed | plugins/src/common_checksums.cpp:543-556 | Fletcher-32 is the sum of the words and the sum of each word times its distance from the end, modulo 65535 |
| WordSums.InternetClosed | plugins/src/common_checksums.cpp:608-613 | the Internet checksum is the complement of the sum of the words modulo 65535 |
| WordSums.OddInternet | plugins/src/common_checksums.cpp:608-613 | an odd content is summed as if a zero byte followed |
| WordSums.CheckValues | plugins/tests/transform_plugin_tests.cpp:944-945 | both checksums of the nine digits |
| WordSums.PairState.Update | plugins/src/common_checksums.cpp:544-554 | the sums and the odd byte stand for all bytes seen |
| WordSums.PairState.OneShot | plugins/src/common_checksums.cpp:544-554 | they are the fold of all words and the byte left over |
| Replay.Replayer.ApplyEntries | vscode-extension/src/hexEditorProvider.ts:7194-7335 | all or nothing: applied exactly when every entry succeeds and the fingerprint matches, with the outcome of one-by-one replay; otherwise rolled back with nothing recorded, unless the rollback fails |
| Replay.Replayer.Feed | vscode-extension/src/hexEditorProvider.ts:7263-7279 | the batches have the outcome of one-by-one replay |
| Replay.Replayer.FeedTransform | vscode-extension/src/hexEditorProvider.ts:7265-7271 | a transform flushes what is pending and runs alone |
| Replay.Replayer.FeedOther | vscode-extension/src/hexEditorProvider.ts:7272-7277 | other entries wait until there are enough of them |
| Replay.Replayer.Flush | vscode-extension/src/hexEditorProvider.ts:7241-7261 | a batch becomes one transaction of the records it reported |
| Replay.Replayer.RunBatch | vscode-extension/src/hexEditorProvider.ts:7249-7257 | the entries of a batch in order, up to the first that fails |
| Replay.GroupsFlatten | vscode-extension/src/hexEditorProvider.ts:7264-7279 | the batches laid end to end are the entries, in order |
| Replay.GroupsGood | vscode-extension/src/hexEditorProvider.ts:7239-7277 | no batch is empty or over 1024 entries, and a transform is never in a batch with others |
| Replay.GroupsCutLate | vscode-extension/src/hexEditorProvider.ts:7272-7277 | a batch that is not followed by a transform or the end has exactly 1024 entries |
| Replay.TransactionsHoldAll | vscode-extension/src/hexEditorProvider.ts:7219-7226 | the transactions recorded hold every reported change once, in order |
| Replay.OneByOneAppend | vscode-extension/src/hexEditorProvider.ts:7194-7335 | replaying a concatenation is replaying its parts |
| Replay.OnlyExtends | vscode-extension/src/hexEditorProvider.ts:1544-1556 | replay only adds to the change list, so cutting it back to its old length restores it |
| RangeIds.ParseContent | vscode-extension/src/rangeMap.ts:279-373 | a document is accepted exactly when its nodes are admissible, its source is short enough, its file size is a safe number and its selection names a node; then ids are distinct and at most 128 characters, children precede their parents, there is one highlight for each node, each node stands for its value, and the tree has the shape of the nodes, each view with its node's path, caption and range and its highlight's id |
| RangeIds.Build | vscode-extension/src/rangeMap.ts:327-372 | the same for parsed nodes |
| RangeMap.Context.ParseNode | vscode-extension/src/rangeMap.ts:113-190 | accepts a node exactly when its whole tree is well formed, not too deep, within the node limit and without a taken path |
| RangeMap.Context.ParseAll | vscode-extension/src/rangeMap.ts:168-177 | the same for a list of nodes |
| RangeMap.ParsedStandsFor | vscode-extension/src/rangeMap.ts:129-189 | a parsed tree has the shape of the accepted value, each node with its trimmed path and label, offset and length |
| RangeIds.IdPool.MakeId | vscode-extension/src/rangeMap.ts:207-227 | an id no one has: the preferred one unless taken, then the first free numbered one, found within as many tries as there are ids |
| RangeIds.AssignIds | vscode-extension/src/rangeMap.ts:345-349 | distinct ids of at most 128 characters, the path itself wherever it is free |
| RangeIds.VisitAll | vscode-extension/src/rangeMap.ts:192-205 | the flattened list, children first |
| RangeIds.FlatIsChildFirst | vscode-extension/src/rangeMap.ts:192-205 | every child stands before its parent |
| RangeIds.FlatPaths | vscode-extension/src/rangeMap.ts:192-205 | flattening keeps every node, once |
| RangeIds.ShownCarries | vscode-extension/src/rangeMap.ts:253-277 | read children first, view k has the path, caption and range of node k and the id and selection of highlight k |
| RangeIds.ShownViews | vscode-extension/src/rangeMap.ts:253-277 | read children first, the views are those of the flattened list, in its order |
| RangeIds.ShownMirrors | vscode-extension/src/rangeMap.ts:253-277 | the tree of views has the shape of the tree of nodes |
| RangeIds.Table | vscode-extension/src/rangeMap.ts:345-349 | with distinct paths the id table gives every node its own id |
| RangeIds.MakeHighlights | vscode-extension/src/rangeMap.ts:350-371 | one highlight for each node with its own range; the selected one is found exactly when there is one |
| RangeIds.FitsFile | vscode-extension/src/rangeMap.ts:375-400 | accepts exactly the maps whose recorded size, if any, is the file's and whose ranges at every depth lie within it |
| RangeIds.GeneratedInjective | vscode-extension/src/rangeMap.ts:219-224 | different suffixes give different ids |

## Left out

- Manifest operations of one session that overlap between the generation check and the commit: the commit half of a capture and every other operation are taken as one step each, which the class itself does not enforce.
- TimelineSession.Session.BeginCapture: whether the quota reservation succeeds is an input; what the ledger does is in Quota and Ledger.
- TimelineSession.Session.FinishCapture: does not model a session that is closed while the capture is running.
- TimelineSession.Session.PutInPlace: does not model a session that is closed while the capture is running.
- TimelineSession.Session.CloseSession: does not model a directory deletion that fails half way, nor the ledger update of a close, which is in Quota.
- TimelineSession.CreateSession: does not model a first commit or a quota check that fails, which removes the new directory again.
- Ledger.Store.WithIndexLock: does not model retries, waiting, taking over a stale lock, or a lock file that vanishes.
- The editor history snapshot, timestamps, document name and format fields of a manifest, and the 4 MiB limit on reading it back.
- Taking over a stale lock: a lock left behind blocks the model for good; all managers have the same limits.
- Which sessions a clean-up removes (clock and retention); it is any set of keys.
- Checkpoints and transform changes of the native session, viewports, events, file-backed payloads and failing allocations; a change's serial number is its position in the list.
- EditSession.Session.UndoLastChange: does not model checkpoints and transform changes.
- EditSession.Session.RedoLastUndo: does not model checkpoints and transform changes.
- EditSession.Session.RestoreToChangeCount: does not model checkpoints.
- EditRead.Populate: does not model read errors of the file.
- Streaming.ForEachChunk: models the reader loop; without a reader the whole input is one chunk.
- Replay.Replayer.ApplyEntries: what one entry does to the server and whether a rollback succeeds are parameters, so transform options, view updates and the redo stack a replay discards are not described.
- RangeMap.Context.ParseNode: does not model kinds and value texts, which cannot make a node invalid (the length of the type text can, and is modelled); trimming is a parameter.
- RangeIds.ParseContent: does not model JSON decoding, the format and version fields, or a node list that is not an array.
- Crc.Digest: does not model the hexadecimal text of a checksum.
- Murmur3.Digest, XxHash.Digest32 and XxHash.Digest64: no quality of the hash is claimed.
- Base64url, Uuencode, yEnc, hex, percent and quoted-printable codecs, JSON and CSV helpers, single-byte character sets: tables and per-byte maps that would only add easy members.
- OpenSSL, zlib and zstd plugins, the plugin interface, the user interface and the server: their behaviour lives outside this code.
