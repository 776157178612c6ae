# Reclaim, verified in Dafny

Reclaim recovers files from disks and disk images without writing to them. A
carve thread looks for file headers chunk by chunk and hands what it finds to a
writer that batches results, checkpoints its position and can be stopped,
killed and resumed. Underneath, block sources answer every read with bytes and
the sectors that could not be read. Beside carving, file system engines decode
FAT, exFAT, NTFS, ext2/3/4, HFS+ and APFS volumes to say where the bytes of a
live or deleted file are. This project models those parts and proves what they
keep, on all inputs. `dafny verify dfyconfig.toml` checks all of it.

## How the model is laid out

| files | what they model |
|---|---|
| CarveEngine, ResumeCuts, ResumeLoss | candidates, claims and the chunk loop, against one greedy pass; what forgetting the claims at a chunk boundary adds and loses |
| AnchorSearch, ScanSearch | pattern compilation, the anchor index, chunked against one-shot search; search and chunk loop together, from bytes to results |
| ScanProtocol, ScanDurable, ScanRuns, ScanResume, ScanLoss, ScanWriter | producer, bounded FIFO, writer, store, crash and resume: a step relation and its invariants, crash safety, what one run adds and writes down, what resuming guarantees and what it can lose, and the writer's code |
| BlockSource, Cache | images, fault injector, window, LRU read-ahead cache |
| Salvage, RawDevice | the salvage loop as an automaton over a device's answers, and its code |
| Extents, ExtBlocks, ExtentTree, ClassicMap | byte extents and what they flatten to; ext extent trees and indirect blocks |
| NtfsRuns | mapping pairs, runs to extents, MFT record addresses |
| ClusterChains, FatTable, FatFiles, FatLayout, ExFatFiles | FAT and exFAT chains, entries of 12, 16 and 32 bits and the bytes they are in, live and deleted files |
| Bitmaps, FatBitmap, ExtBitmap | allocation bitmaps and what they index |
| ApfsTree, ApfsGraph, ApfsOmap | bounded B-tree walk over trees and over any graph, object map, shared work budget |
| ExtDir, ExtInodes | directory blocks and deletion by absorption; inode numbers and places |
| Civil, Crc, Fletcher | dates and checksums |
| Arith, Bits, Bytes, Wrappers | division, machine words as numbers, bytes and bounded readers, options |

Code that updates state in place is a method or a class method proved against a
specification function of its inputs or old state; lemmas then prove what the
source promises about that function. `Flatten` gives the address of every byte
of an extent list and is the common ground of all file systems here. Words are
natural numbers with `Xor`, `Shr`, `Shl` and `Low` for the operators. A format
validator is an oracle: a candidate carries the verdict it would get.

Standards followed: Microsoft FAT32 File System Specification 1.03 (sections
"FAT Data Structure" and "FAT Type Determination"), Microsoft exFAT
specification (sections 4.1 and 6.4.2.2), Apple File System Reference (chapters
"Objects", "Object Maps" and "B-Trees"), CRC-32 as in section 3.4 of RFC 2083
and section 8 of RFC 1952, the leap-year rule of Appendix C of RFC 3339, and the
Linux kernel's "ext4 Data Structures and Algorithms".

## Where the code does less than its documentation says

Each of these is a theorem, with the exact condition under which the
documented behaviour does hold. What does hold without conditions on resume is
that the stored cursor never runs ahead of what the scan gave
(`ScanDurable.AllGivenBelowTheCursorIsStored`), and that nothing but verdicts is
stored (`ScanLoss.StoredIsGenuine`).

- crates/reclaim-session/src/scan.rs:4-5 promises an identical result set on
  resume. Claims are not stored, so it holds exactly when the claims lost at a
  chunk boundary keep out no candidate by themselves
  (`ScanResume.ResumedStoreIsExactIff`); for verdicts that keep the header's
  start, when no chunk boundary cuts a claimed file that hides an acceptable
  header (`ScanResume.ResumedStoreIsExactIffClean`). A resumed scan can report
  files that the uninterrupted one does not (`CarveEngine.ResumeCanDiffer`), and
  it can lack files that the uninterrupted one reports
  (`ResumeLoss.ResumeCanLose`). It lacks none exactly when what is let through
  at a cut reaches no acceptable header behind the lost claim
  (`ScanLoss.NothingIsLostIff`).
- Salvage of a raw device gives up a readable sector whose single-sector read
  comes back short (crates/reclaim-block/src/raw_device.rs:195-207,
  `Salvage.ShortReadLosesASector`). An execution's bad sectors are exact if and
  only if that does not happen in it (`Salvage.ExactIffNoShortRead`), and all
  executions are exact if and only if device and request rule it out
  (`Salvage.AlwaysExactIff`).
- crates/reclaim-block/src/source.rs:53 says that a bad sector's bytes are
  zero. The last, partial sector of a request that runs past the end is bad and
  still holds the bytes that exist (`BlockSource.BadSectorKeepsItsBytes`); when
  the zeros are there, `BlockSource.BadIsZeroIff` says.
- Holes collapse in ext and NTFS extents: later bytes move forward
  (`ExtBlocks.HoleMovesTheRest`, `NtfsRuns.HoleMovesTheRest`). Files without
  holes below their size are byte exact, and no others
  (`ExtBlocks.ByteExactIffHoleFree`, `NtfsRuns.PresentAllIff`).
- crates/reclaim-fs-core/src/bitmap.rs:63-64 says that offsets before the
  cluster heap count as allocated. For FAT the last two clusters' room before
  it answers free (`FatBitmap.BeforeTheData`), and clusters from 2^27 on always
  answer allocated.
- crates/fs-exfat/src/lib.rs:185-186 promises a guard against loops in a cluster
  chain. Only a link to itself is noticed; longer loops are followed up to the
  cap (`ClusterChains.LoopIsFollowed`), and a chain is free of repetitions
  exactly when it ends (`ClusterChains.RepeatsIffNeverEnds`).
- An APFS tree that shares a block between a parent above it and a node that is
  not can lose it (`ApfsGraph.MetTooLowIsMissed`); on other graphs everything
  reachable is visited (`ApfsGraph.EveryReachableIsVisited`).
- The FAT's deleted-file assumption is right exactly for consecutive clusters
  (`FatFiles.DeletionKeepsExtentsIff`).
- Fletcher-64 covers no byte after the last whole word
  (`Fletcher.OneByteIsSeenIff`).
- Journal harvesting misses the inodes of a table's last, partial block, and
  misnumbers slots when a table is smaller than a block
  (`ExtInodes.AllCoveredIff`, `ExtInodes.SlotIsLocatedIff`).
- Live directory entries with implausible names are not listed
  (`ExtDir.LiveIsListedIff`).

## Model

| member | source | states |
|---|---|---|
| `CarveEngine.PruneClaims` | crates/reclaim-carve/src/engine.rs:552-560 | The claims that end after the cursor stay, in order; only if more than 64 stay are the oldest dropped. |
| `CarveEngine.ScanCandidates` | crates/reclaim-carve/src/engine.rs:219-235 | One chunk's candidates, in file order, against the claims carried in: what is emitted and which claims are left. |
| `ResumeCuts.ResultsIff` | crates/reclaim-carve/src/engine.rs:219-235 | Of any candidates and carried claims, a verdict is emitted if and only if some candidate has it, it is Full or corrupted results are kept, and the claims left by the candidates before do not cover that candidate. |
| `ResumeCuts.OnlyFullIsSent` | crates/reclaim-carve/src/engine.rs:224-226 | When corrupted results are not kept, every result that a scan of any number of chunks sends is Full. |
| `ResumeCuts.TakenIff` | crates/reclaim-carve/src/engine.rs:219-235 | As long as no more than 64 Full results are out, the next candidate is taken if and only if it has an acceptable verdict and starts inside none of them: the claims list is the set of Full results so far. |
| `ResumeCuts.PrunedIff` | crates/reclaim-carve/src/engine.rs:552-560 | Pruning keeps exactly the claims that end after the cursor, or the last 64 of them if there are more. |
| `CarveEngine.ClaimsAreGreedy` | crates/reclaim-carve/src/engine.rs:227-231 | With verdicts that keep the header's start, at most one claim survives any candidates, so the bound of 64 never drops one, and the claims list emits exactly what a single "end of the last claimed file" would. |
| `CarveEngine.GreedyDisjoint` | crates/reclaim-carve/src/engine.rs:219-235 | Emitted Full results are pairwise disjoint and no result starts inside an earlier Full one. |
| `CarveEngine.GreedySound` | crates/reclaim-carve/src/engine.rs:223-234 | Every emitted result is the verdict of some accepted candidate. |
| `CarveEngine.GreedyMaximal` | crates/reclaim-carve/src/engine.rs:219-235 | An accepted candidate that is not emitted starts strictly inside an emitted Full result, or before the horizon the pass began with. |
| `CarveEngine.FoldConcat` | crates/reclaim-carve/src/engine.rs:186-235 | Cutting the candidate list anywhere and carrying the claims over gives the same results and the same claims. |
| `CarveEngine.Scan` | crates/reclaim-carve/src/engine.rs:156-253 | The chunk loop sends, for each chunk up to cancellation, its results and then one progress message with the next cursor; it is interrupted exactly if it stops early. |
| `CarveEngine.RunResults` | crates/reclaim-carve/src/engine.rs:186-235 | The results and the claims after n chunks are those of one pass over the candidates of all n chunks. |
| `CarveEngine.ChunkLoopIsGreedy` | crates/reclaim-carve/src/engine.rs:156-253 | The whole chunked scan equals one greedy left-to-right pass over all candidates, and its Full results are disjoint. |
| `ResumeCuts.FoldForgets` | crates/reclaim-carve/src/engine.rs:186-240 | For every source: a loop that loses claims which keep no candidate out by themselves gives the same results, and what is left of these claims stands before the new ones, where the cap drops it first. |
| `ResumeCuts.UncoveredCutIsSafe` | crates/reclaim-carve/src/engine.rs:548-560 | For every source: a cut is safe if no claim held there covers an acceptable header from there on. |
| `ResumeCuts.ResumeIsExact` | crates/reclaim-carve/src/engine.rs:178-186 | For every source: stopping before a chunk and resuming there, which forgets the claims, gives the uninterrupted result list if the cut is safe, that is if the claims lost there keep out no candidate that nothing else keeps out. |
| `ResumeCuts.ResumeIsExactIff` | crates/reclaim-carve/src/engine.rs:178-186 | If no two acceptable candidates are one file, it does so if and only if the cut is safe; verdicts may move a file's start. |
| `ResumeCuts.SafeIffClean` | crates/reclaim-carve/src/engine.rs:219-235 | For verdicts that keep the header's start a cut is safe if and only if the file that straddles it hides no acceptable header behind it. |
| `ResumeLoss.LosslessIff` | crates/reclaim-carve/src/engine.rs:219-235 | Forgetting the end of the last claimed file loses no result if and only if what is taken before that end reaches no acceptable header behind it. |
| `ResumeLoss.ResumeKeepsAllIff` | crates/reclaim-carve/src/engine.rs:178-186 | A stop and a resume keep all results of the uninterrupted scan if and only if the cut loses nothing in this sense. |
| `ResumeLoss.ResumeCanLose` | crates/reclaim-session/src/scan.rs:4-5 | A concrete source of three Full files for which the resumed scan lacks one that the uninterrupted scan reports. |
| `CarveEngine.DirtyCutAdds` | crates/reclaim-carve/src/engine.rs:178-186 | Otherwise the resumed scan reports a result at an offset where the uninterrupted scan has none. |
| `CarveEngine.UnstraddledCutIsClean` | crates/reclaim-carve/src/engine.rs:548-560 | A cut that no claimed file reaches across hides nothing. |
| `CarveEngine.ResumeCanDiffer` | crates/reclaim-session/src/scan.rs:4-5 | A concrete source for which the promise of an identical result set fails: a Full file that reaches into the second chunk, with a header embedded there. |
| `ScanProtocol.StepKeepsInv` | crates/reclaim-session/src/scan.rs:147-304 | Every step of producer, channel, writer, crash and cancel keeps: received + in the channel + not yet sent = what the scan reports; the store is what it was plus every received result that is not pending; fewer than 1024 results are pending between messages; a checkpoint lags by less than 1 GiB. |
| `ScanProtocol.ReachableInv` | crates/reclaim-session/src/scan.rs:147-304 | So it holds in every state of every execution, across any number of crashes and restarts. |
| `ScanProtocol.PrefixMeaning` | crates/reclaim-session/src/scan.rs:219-261 | Whatever prefix of a run's messages has arrived, its last progress message names a chunk boundary all of whose results have arrived. |
| `ScanProtocol.AllReceived` | crates/reclaim-session/src/scan.rs:278-294 | When the writer reaches its final flush, every message of the run has been received exactly once. |
| `ScanProtocol.NeverStuck` | crates/reclaim-session/src/scan.rs:166-293 | No deadlock: a running session always has a step to take that is neither a time-out, a crash, a cancel nor a failure, also after a failed transaction. |
| `ScanProtocol.WorkDrops` | crates/reclaim-session/src/scan.rs:166-293 | Every step but a time-out uses up a lexicographic measure, on the error path too, so a run ends. |
| `ScanWriter.SessionStore.InsertCarved` | crates/reclaim-session/src/store.rs:306-344 | One transaction inserts every row whose key is new and leaves the others as they were, or changes nothing. |
| `ScanWriter.SessionStore.PutProgress` | crates/reclaim-session/src/store.rs:492-509 | The progress row is replaced, or nothing changes. |
| `ScanWriter.PlanScan` | crates/reclaim-session/src/scan.rs:103-126 | A session whose row says complete is not scanned again, and its rows are counted. Any other carves: told to resume, with a row, from that row's cursor and with its block size; otherwise from 0 with the configured block size, or the inferred one if none is configured. So the protocol starts, and only such a run. |
| `ScanRuns.RunThatCompletes` | crates/reclaim-session/src/scan.rs:103-304 | From any reachable state: a run that completes adds exactly what one scan finds from the stored cursor with the stored block size, if it was told to resume and there is a row, and otherwise what one scan finds from the start. |
| `ScanRuns.AnewScansAll` | crates/reclaim-session/src/scan.rs:116-126 | A run that was not told to resume scans everything, whatever row an interrupted session left. |
| `ScanRuns.AnewCanComplete` | crates/reclaim-session/src/scan.rs:116-304 | And it does complete if it is left alone. |
| `ScanRuns.OnlyTransactsWrite` | crates/reclaim-session/src/scan.rs:187-304 | Nothing but a transaction of a flush or of a checkpoint changes a table, and each only its own. |
| `ScanRuns.RunBegins` | crates/reclaim-session/src/scan.rs:147-182 | A run begins with nothing read, claimed, received or reported, so its first checkpoint is due after 1 GiB. |
| `ScanRuns.AnyWriteMayFail` | crates/reclaim-session/src/scan.rs:187-304 | Every transaction the writer is about to make may fail; then both tables are as they were, and the rest of the run, if any, is cancelled. |
| `ScanRuns.FailedWritesNothing` | crates/reclaim-session/src/scan.rs:278-304 | After a failure no step of the run changes a table. |
| `ScanRuns.QuietIff` | crates/reclaim-session/src/scan.rs:187-293 | The writer receives if and only if a message is there, looks at the interval only when none is, and leaves the loop only when none is and the carve thread has ended. |
| `ScanRuns.DueReportIsWritten` | crates/reclaim-session/src/scan.rs:219-261 | A report that arrives when the interval or 1 GiB has passed is stored as the row, after all results received before it. |
| `ScanRuns.EarlyReportIsKept` | crates/reclaim-session/src/scan.rs:219-261 | Any other report is only remembered. |
| `ScanRuns.DueTimeoutIsWritten` | crates/reclaim-session/src/scan.rs:262-277 | A quiet interval that has passed stores the last report again; one that has not changes nothing. |
| `ScanRuns.FullBatchIsWritten` | crates/reclaim-session/src/scan.rs:196-218 | A result is only remembered, unless it is the 1024th pending one; then all are inserted. |
| `ScanRuns.SendWaits` | crates/reclaim-session/src/scan.rs:147-147 | The carve thread waits exactly while 4096 messages are in the channel. |
| `ScanRuns.CancelIsHeeded` | crates/reclaim-carve/src/engine.rs:189-192 | A run that was cancelled reads no further chunk. |
| `ScanRuns.StepRemembers` | crates/reclaim-session/src/scan.rs:219-243 | Every step keeps this: what the writer remembers is the last report it received, or what the run began with. |
| `ScanRuns.CheckpointSays` | crates/reclaim-session/src/scan.rs:244-259 | A checkpoint's row is the account of the last chunk whose report arrived: cursor, bytes scanned, bytes in all, and the number of results up to it. |
| `ScanRuns.FinalRowSays` | crates/reclaim-session/src/scan.rs:290-304 | The last row of a run is where it stopped and the number of results of its chunks, complete if and only if it was not interrupted. |
| `ScanWriter.WriterLoop.constructor` | crates/reclaim-session/src/scan.rs:170-182 | The loop of a planned run begins with nothing pending, at the planned cursor, with the planned block size. |
| `ScanWriter.WriterLoop.Flush` | crates/reclaim-session/src/scan.rs:335-343 | The pending results are inserted and the batch is empty; a failed transaction keeps both. |
| `ScanWriter.WriterLoop.OnFound` | crates/reclaim-session/src/scan.rs:196-218 | Receiving a result is the step of the protocol that receives it, followed by the flush of a full batch. |
| `ScanWriter.WriterLoop.Checkpoint` | crates/reclaim-session/src/scan.rs:244-259 | A checkpoint is the flush and then the progress row, two transactions, the second only if the first succeeded. |
| `ScanWriter.WriterLoop.OnProgress` | crates/reclaim-session/src/scan.rs:219-261 | Receiving progress takes over the cursor and checkpoints when the interval or 1 GiB has passed. |
| `ScanWriter.WriterLoop.OnTimeout` | crates/reclaim-session/src/scan.rs:262-277 | A quiet interval checkpoints if one is due; if that fails, the store is as before or has only the batch in addition. |
| `ScanWriter.WriterLoop.Finish` | crates/reclaim-session/src/scan.rs:290-304 | The end of a run: the last batch, then the final row, complete exactly if the scan was not interrupted. |
| `ScanResume.InsertAgain` | crates/reclaim-session/src/store.rs:306-344 | Inserting a stretch of the results again, after any prefix that reaches its start, leaves what the longer of the two prefixes would. |
| `ScanResume.StepKeepsExact` | crates/reclaim-session/src/scan.rs:116-304 | For every source whose cuts are safe, every step of every run keeps the store equal to a prefix of the uninterrupted results, and the stored cursor at a chunk boundary that this prefix covers. |
| `ScanDurable.RowsOnlyGrow` | crates/reclaim-session/src/store.rs:306-344 | No step, a crash and a restart included, removes or changes a stored result. |
| `ScanDurable.StepKeepsCovered` | crates/reclaim-session/src/scan.rs:187-304 | Every step keeps this: the stored cursor is a chunk boundary, every chunk below it was scanned with the claims that the chunk before it left, or with none where a run began, and all that it gave is stored; a complete row stands for all chunks. |
| `ScanDurable.AllGivenBelowTheCursorIsStored` | crates/reclaim-session/src/scan.rs:116-126 | Crash safety without conditions: for every source, verdict, block size and execution, crashes and failures at any step and any number of restarts included, all that a chunk below the stored cursor gave, in the run that scanned it, is in the store. |
| `ScanDurable.CoveredSays` | crates/reclaim-session/src/scan.rs:116-126 | What that says in numbers: the cursor is a whole number of 8 MiB chunks into the scan, or at its end, where the row is complete; each chunk below it began with no claims or with those the chunk before it left. |
| `ScanDurable.CoveredHas` | crates/reclaim-session/src/scan.rs:116-126 | And every result of such a chunk is in the store under its own offset and length. |
| `ScanResume.CursorIsCovered` | crates/reclaim-session/src/scan.rs:116-126 | For every source whose cuts are safe, what is stored below the cursor is all that one uninterrupted scan finds there. |
| `ScanResume.CompleteIsExact` | crates/reclaim-session/src/scan.rs:290-304 | For every source whose cuts are safe, verdicts that move a file's start included, a session that ends complete has stored exactly what one uninterrupted scan stores. |
| `ScanResume.UncoveredIsExact` | crates/reclaim-session/src/scan.rs:290-304 | So it has, for every source, if no claim held at a chunk boundary covers an acceptable header from there on. |
| `ScanResume.UnsafeCutIsExposed` | crates/reclaim-session/src/scan.rs:116-126 | For every cut that is not safe, if no two acceptable candidates are one file, there is an execution, one stop and one resume, that ends complete with a different store. |
| `ScanResume.ResumedStoreIsExactIff` | crates/reclaim-session/src/scan.rs:1-5 | The documented promise with its exact condition: all complete sessions have the store of an uninterrupted scan if all cuts are safe, for every source; and only if they are, for sources whose acceptable candidates are different files. |
| `ScanResume.ResumedStoreIsExactIffClean` | crates/reclaim-session/src/scan.rs:1-5 | For verdicts that keep the header's start: if and only if no chunk boundary cuts a claimed file that hides an acceptable header. |
| `ScanLoss.PromiseMayHoldAnyway` | crates/reclaim-session/src/scan.rs:1-5 | Why the other half needs different files: a concrete source with a cut that is not safe, whose store is exact after every complete session, because the file found twice is one row. |
| `ScanLoss.LossIsExposed` | crates/reclaim-session/src/scan.rs:116-126 | For every cut that loses a result there is an execution, one stop and one resume, that ends complete without a file that the uninterrupted scan reports. |
| `ScanLoss.NothingIsLostIff` | crates/reclaim-session/src/scan.rs:1-5 | The weaker promise with its exact condition: every complete session has all results of the uninterrupted scan if and only if no cut loses one. |
| `ScanLoss.StoredIsGenuine` | crates/reclaim-session/src/scan.rs:187-304 | In every execution every stored row is the verdict on an accepted candidate of the source, under its own key. |
| `AnchorSearch.ParsePattern` | crates/reclaim-sigs/build.rs:109-127 | Each token of a pattern gives one byte and one mask byte: a hex pair is a literal, "??" matches anything; anything else is refused. |
| `AnchorSearch.ExtractAnchor` | crates/reclaim-sigs/build.rs:129-155 | The anchor is the first of the longest runs of fully masked bytes, found where it says; a pattern without one is refused. |
| `AnchorSearch.CompileHeader` | crates/reclaim-sigs/build.rs:234-252 | A compiled header has the bytes and masks of its tokens, its anchor inside them under a full mask; and it confirms a window if and only if that is long enough and has every literal of the tokens in its place. |
| `AnchorSearch.Spans` | crates/reclaim-sigs/build.rs:239-240 | The two maxima are those over all headers of the catalog. |
| `AnchorSearch.ForSignatures` | crates/reclaim-carve/src/matcher.rs:71-100 | Every header with an anchor of at least two bytes is in the bucket of its anchor, once, nothing else is in any bucket, and buckets are in catalog order. |
| `AnchorSearch.BucketIff` | crates/reclaim-carve/src/matcher.rs:71-100 | In a finished index a bucket holds exactly the headers of the catalog with its anchor of at least two bytes, in catalog order. |
| `AnchorSearch.HasABucket` | crates/reclaim-carve/src/matcher.rs:71-100 | And no header with an anchor of at least two bytes is without a bucket. |
| `AnchorSearch.OverlapIsLeast` | crates/reclaim-carve/src/engine.rs:180-194 | The overlap is one byte less than the longest reach of any header from its file start, or the longest anchor if that is longer, and 0 for an empty catalog. |
| `AnchorSearch.ScanBuffer` | crates/reclaim-carve/src/matcher.rs:109-150 | Every (header, file start) whose anchor occurs and whose window does not refute it is emitted, exactly once, and no other. |
| `AnchorSearch.OneHit` | crates/reclaim-carve/src/matcher.rs:113-116 | A candidate comes from one anchor occurrence only. |
| `AnchorSearch.ChunkSeesAll` | crates/reclaim-carve/src/engine.rs:180-206 | A chunk with its overlap reports a file start it keeps exactly when a search of the whole range reports it. |
| `AnchorSearch.ChunkedIsOneShot` | crates/reclaim-carve/src/engine.rs:180-206 | Chunked search is one-shot search: a file start is found in the whole range if and only if some chunk reports and keeps it, and then exactly one does. |
| `AnchorSearch.ReportedIsTokens` | crates/reclaim-sigs/src/lib.rs:56-65 | A header compiled from tokens is reported at a file start, where the buffer holds its whole pattern, if and only if its anchor has two bytes and every literal token is in its place: the detour over anchors cannot be seen. |
| `AnchorSearch.CutPatternIsReported` | crates/reclaim-carve/src/matcher.rs:134-150 | A pattern that the buffer does not hold whole is reported by its anchor alone. |
| `AnchorSearch.OneShotIsTokens` | crates/reclaim-sigs/src/lib.rs:56-65 | Where the pattern lies inside the range, a search of the whole range reports it if and only if the range has every literal of the pattern's tokens in its place. |
| `ScanSearch.GroupKept` | crates/reclaim-carve/src/engine.rs:197-206 | Grouping what a buffer reports gives each file start that the chunk keeps exactly its reported headers. |
| `ScanSearch.ChunkMap` | crates/reclaim-carve/src/engine.rs:193-206 | Searching a chunk's buffer and grouping gives each of its file starts the headers that the chunk reports and keeps. |
| `ScanSearch.SearchIsInOrder` | crates/reclaim-carve/src/engine.rs:196-222 | What the chunk loop takes as known of its candidates, ascending file starts inside the chunk, the search provides. |
| `ScanSearch.ChunksAreOneShot` | crates/reclaim-carve/src/engine.rs:187-240 | The chunks hand the loop, one after the other, exactly the matches of a search of the whole range, in ascending order. |
| `ScanSearch.MatchesIff` | crates/reclaim-carve/src/engine.rs:196-222 | What is handed over: exactly the file starts where some header is reported, or where the text pass of the start's own chunk names it, each with the verdict on just these. |
| `ScanSearch.ScanIsOneShotGreedy` | crates/reclaim-carve/src/engine.rs:156-253 | Chunks, overlaps, the filter and the claims list amount to one greedy left-to-right pass over the matches of the whole range, with disjoint Full results. |
| `ScanSearch.NoHeaderIsMissed` | crates/reclaim-carve/src/engine.rs:156-253 | From tokens and bytes to results: where all literals of a header's pattern stand and the validators give a Full verdict, or any if corrupted ones are kept, the scan reports it, or the place lies strictly inside a Full file that it reports. |
| `BlockSource.Bitset.constructor` | crates/reclaim-block/src/bitset.rs:18-25 | All bits are clear. |
| `BlockSource.Bitset.Set` | crates/reclaim-block/src/bitset.rs:39-48 | Exactly one member is added, or nothing if the index is out of range. |
| `BlockSource.Bitset.Get` | crates/reclaim-block/src/bitset.rs:50-58 | Membership; out of range is no member. |
| `BlockSource.Bitset.Any` | crates/reclaim-block/src/bitset.rs:61-64 | True if and only if there is a member. |
| `BlockSource.ReadResult.Status` | crates/reclaim-block/src/source.rs:112-121 | Bad takes precedence over Unread, Unread over Good. |
| `BlockSource.MarkBadFromByte` | crates/reclaim-block/src/image_file.rs:137-154 | Exactly the sectors that reach past a byte become bad in addition. |
| `BlockSource.ReadFileAt` | crates/reclaim-block/src/image_file.rs:83-135 | A read of an image returns the file's bytes up to its end, a failure or what was asked for, zeros after that, and marks bad exactly the sectors with a byte of the rest; on a file that has its recorded length and does not fail these are the sectors past the end, or all for an unaligned or outside start. |
| `BlockSource.BadIsZeroIff` | crates/reclaim-block/src/source.rs:48-62 | The documented zeros of bad sectors with their exact condition: all bytes of a request in bad sectors are zero if and only if it ends inside the source, or the source's last, partial sector is itself bad, or its bytes are zero anyway. |
| `BlockSource.BadSectorKeepsItsBytes` | crates/reclaim-block/src/image_file.rs:119-154 | Three bytes in sectors of two: a request for four has its second sector bad, and the third byte in it. |
| `BlockSource.ReadFaulty` | crates/reclaim-block/src/fault.rs:58-79 | A read through the fault injector is a read of a medium that has those sectors bad as well. |
| `BlockSource.InjectFaults` | crates/reclaim-block/src/fault.rs:64-78 | Injected sectors become bad and zero; every other byte and sector is as before. |
| `BlockSource.ReadWindow` | crates/reclaim-block/src/offset_view.rs:76-109 | A read through a window is a read of a medium that is only the window. |
| `BlockSource.ReadAt` | crates/reclaim-block/src/source.rs:176-181 | Any tower of images, fault injectors and windows reads exactly the bytes and bad sectors it denotes. |
| `BlockSource.WindowReads` | crates/reclaim-block/src/offset_view.rs:76-109 | What a request to a window is in terms of the parent: the parent's bytes and bad sectors inside, bad beyond its end. |
| `BlockSource.FaultReads` | crates/reclaim-block/src/fault.rs:58-79 | What a request through a fault injector is in terms of the parent: the sectors listed by their number in the source are bad and zero in addition, and nothing else differs. |
| `Cache.Evict` | crates/reclaim-block/src/cache.rs:115-129 | Eviction ends within capacity, keeps entries unchanged, and every entry that stays was used after every entry that went. |
| `Cache.SectorInChunk` | crates/reclaim-block/src/cache.rs:202-209 | A request sector is bad exactly when the chunk that holds it has it bad. |
| `Cache.ReadAheadCache.constructor` | crates/reclaim-block/src/cache.rs:63-81 | An empty cache over a source, with a chunk size of whole sectors. |
| `Cache.ReadAheadCache.Fetch` | crates/reclaim-block/src/cache.rs:93-112 | A fetched chunk holds the source's bytes and bad sectors for its range. |
| `Cache.ReadAheadCache.Touch` | crates/reclaim-block/src/cache.rs:175-180 | The chunk is resident and the most recently used; the others are unchanged. |
| `Cache.ReadAheadCache.ReadSpan` | crates/reclaim-block/src/cache.rs:171-220 | One chunk's part of the request is answered and progress is made. |
| `Cache.ReadAheadCache.Read` | crates/reclaim-block/src/cache.rs:145-231 | Whatever was read and evicted before, a read returns the bytes and bad sectors of a direct read, also at a partial last sector and past the end; afterwards the cache is within capacity and has evicted the least recently used. |
| `RawDevice.ReadAt` | crates/reclaim-block/src/raw_device.rs:160-232 | For any device whose reads may be short, interrupted or failing, the read ends; good sectors hold device bytes, sectors that were given up are zero, and the bad ones are those the answers make it give up and those that reach past the end, among them all that cannot be read whole. |
| `RawDevice.ReadRest` | crates/reclaim-block/src/raw_device.rs:184-222 | A read of all that is left adds device bytes, finds the end, or drops to single sectors on an error. |
| `RawDevice.ReadSector` | crates/reclaim-block/src/raw_device.rs:187-209 | A single-sector read settles its sector, read whole, or bad and zero; an interrupted one changes nothing. |
| `Salvage.UnsoundIsBad` | crates/reclaim-block/src/raw_device.rs:186-230 | Whatever a device may answer, no sector that cannot be read whole passes for good. |
| `Salvage.OnlyShortReadsLose` | crates/reclaim-block/src/raw_device.rs:187-209 | A sector that can be read is given up by an answer if and only if that is a short one, not empty, to a read of the sector alone. |
| `Salvage.ExactIffNoShortRead` | crates/reclaim-block/src/raw_device.rs:186-230 | In an execution the bad sectors are exactly those that cannot be read whole if and only if no read of a single readable sector came back short. |
| `Salvage.AlwaysExactIff` | crates/reclaim-block/src/raw_device.rs:178-230 | They are so in every execution on a device and request if and only if single-sector reads are all or nothing, or every byte asked for is healthy, or no readable sector of the request has more than one byte in it. |
| `Salvage.ShortReadLosesASector` | crates/reclaim-block/src/raw_device.rs:187-209 | A concrete execution, on two sectors of which the first is unreadable: one byte of the second comes back, and the second is given up as well. |
| `Extents.TrimToSize` | crates/fs-ext/src/inode.rs:249-269 | The trimmed extents address exactly the first `size` bytes, or all there are. |
| `Extents.TrimExtentsTo` | crates/fs-apfs/src/lib.rs:1063-1078 | The same for the APFS loop. |
| `ExtBlocks.SortSorts` | crates/fs-ext/src/inode.rs:226-228 | The sort orders by logical block and loses and adds nothing. |
| `ExtBlocks.SortedIsUnique` | crates/fs-ext/src/inode.rs:226-228 | Blocks collected in any order sort to the order of the map, if no logical block occurs twice. |
| `ExtBlocks.RunsToExtents` | crates/fs-ext/src/inode.rs:226-246 | The extents address the sorted blocks' bytes, block after block, cut at the file's size. |
| `ExtBlocks.ByteExactIffHoleFree` | crates/fs-ext/src/inode.rs:226-246 | Byte i is at phys(i / bs) * bs + i mod bs for all bytes of the file if and only if no block below its size is a hole. |
| `ExtBlocks.HoleMovesTheRest` | crates/fs-ext/src/inode.rs:226-246 | Three blocks of one byte, the middle one a hole: two addresses come out, and the third byte's is in the second place. |
| `ExtentTree.CollectExtentTree` | crates/fs-ext/src/inode.rs:101-156 | The recursive walk, its budget, depth and length limits included, as a function of disk, node and budget. |
| `ExtentTree.HeaderIff` | crates/fs-ext/src/inode.rs:114-123 | Which twelve bytes are the header of a node: the magic in its two bytes, and no more entries than fit. |
| `ExtentTree.RunReads` | crates/fs-ext/src/inode.rs:131-141 | An extent written as twelve bytes is read back: logical block in 32 bits, length in 16, past 32,768 if uninitialised, upper 16 and lower 32 bits of the physical block. |
| `ExtentTree.LinkReads` | crates/fs-ext/src/inode.rs:148-152 | A link written as twelve bytes is read back: lower 32 bits of the child's block before the upper 16. |
| `ExtentTree.KeptOfRun` | crates/fs-ext/src/inode.rs:141-146 | What is collected is cut after 8,388,609 blocks, and nothing else is lost. |
| `ExtentTree.TreeBlocksIff` | crates/fs-ext/src/inode.rs:131-147 | A block is among the tree's blocks if and only if some run covers its logical number, and it is as far into that run on the disk. |
| `ExtentTree.WrongHeaderCosts` | crates/fs-ext/src/inode.rs:110-123 | A node whose header is not taken at its word yields nothing and costs as much as any other. |
| `ExtentTree.RefusedOutright` | crates/fs-ext/src/inode.rs:109-111 | Nothing is read below the fifth level, once 8,388,608 blocks are exceeded, or without a budget. |
| `ExtentTree.CollectIsTreeBlocks` | crates/fs-ext/src/inode.rs:101-156 | On a tree that is stored as bytes, of depth at most 5 and within the limits, the walk reads each node once and collects the tree's blocks in order; initialised and uninitialised runs alike. |
| `ExtentTree.TreeIsByteExactIff` | crates/fs-ext/src/inode.rs:86-156 | From the inode's bytes to extents: every byte gets its own address if and only if the map has no hole below the file's size. |
| `ExtentTree.TreeExtents` | crates/fs-ext/src/inode.rs:86-96 | The extents of a file with a tree are its sorted blocks' bytes, cut at its size. |
| `ClassicMap.Indirect` | crates/fs-ext/src/inode.rs:185-216 | The recursive walk under one indirect pointer, its budget and length limits included. |
| `ClassicMap.PointerReads` | crates/fs-ext/src/inode.rs:206-208 | A pointer is the 32-bit little-endian number at four times its index. |
| `ClassicMap.DirectsIff` | crates/fs-ext/src/inode.rs:159-171 | The direct pointers that are not 0 are collected, each under its own number. |
| `ClassicMap.PointersIff` | crates/fs-ext/src/inode.rs:206-212 | So are the pointers of an indirect block, numbered on from where the walk stood. |
| `ClassicMap.RefusedOutright` | crates/fs-ext/src/inode.rs:196-199 | Nothing is read under a pointer of 0, once the file is too long, or without a budget; no number is passed then. |
| `ClassicMap.ClassicMapAt` | crates/fs-ext/src/inode.rs:159-183 | Block i of a file by its number: one of the twelve direct pointers, or through one, two or three levels of blocks, each level selected by a quotient or remainder of the number. |
| `ClassicMap.WalkIsMap` | crates/fs-ext/src/inode.rs:185-216 | With budget and room enough, the walk under a pointer of any level collects the mapped blocks in order and costs one per indirect block. |
| `ClassicMap.CollectIsMap` | crates/fs-ext/src/inode.rs:159-183 | Twelve direct pointers and three indirect ones collect the file's mapped blocks in order. |
| `ClassicMap.ClassicExtents` | crates/fs-ext/src/inode.rs:86-96 | The extents of a file with a classic map are its sorted blocks' bytes, cut at its size. |
| `ClassicMap.ClassicIsByteExactIff` | crates/fs-ext/src/inode.rs:86-96 | Every byte below the size gets the address its pointers name if and only if there is no hole there. |
| `ClassicMap.LessBudgetIsPrefix` | crates/fs-ext/src/inode.rs:185-216 | Whatever the budget, what is collected is a prefix of what more budget would collect. |
| `NtfsRuns.ReadLeUnsigned` | crates/fs-ntfs/src/record.rs:353-359 | Up to eight bytes as a little-endian number, missing ones as zero. |
| `NtfsRuns.ReadLeSigned` | crates/fs-ntfs/src/record.rs:361-370 | The same bytes as a two's complement number of that width. |
| `NtfsRuns.DecodeRuns` | crates/fs-ntfs/src/record.rs:307-351 | The pairs up to the terminator, a malformed header, a negative cluster or one of the two limits, as runs. |
| `NtfsRuns.DecodeInvertsIff` | crates/fs-ntfs/src/record.rs:307-351 | Decoding a stored run list gives it back whole if and only if it has at most 100,000 runs, and past the first 65,536 none but holes before the last one: widths, signs, prefix sums of distances, holes. |
| `NtfsRuns.PairIff` | crates/fs-ntfs/src/record.rs:313-324 | A pair is there if and only if its first byte gives the length a width and both fields end inside the bytes. |
| `NtfsRuns.LongFieldIsCut` | crates/fs-ntfs/src/record.rs:353-370 | A field of eight bytes or more is read as its first eight, the signed one as a 64-bit number. |
| `NtfsRuns.SignedIsNear` | crates/fs-ntfs/src/record.rs:361-370 | A signed field stays in the range of its width and is the unsigned one or a whole turn less. |
| `NtfsRuns.WrapsAround` | crates/fs-ntfs/src/record.rs:338-341 | The sum of distances wraps around in 64 bits. |
| `NtfsRuns.RunsToExtents` | crates/fs-ntfs/src/lib.rs:593-614 | The extents address the bytes that exist among the first `realSize`; a hole is skipped but uses up size. |
| `NtfsRuns.PresentAllIff` | crates/fs-ntfs/src/lib.rs:593-614 | Every byte has an address, in its place, if and only if no byte is in a hole. |
| `NtfsRuns.HoleMovesTheRest` | crates/fs-ntfs/src/lib.rs:593-614 | Three runs of one byte, the middle one sparse: two addresses come out, and the third byte's is in the second place. |
| `NtfsRuns.ByteOfRun` | crates/fs-ntfs/src/lib.rs:593-614 | Byte j of a run is at its cluster's address plus j, or in a hole. |
| `NtfsRuns.RecordOffset` | crates/fs-ntfs/src/lib.rs:173-184 | The address of the first byte of MFT record n, if the MFT reaches that far. |
| `NtfsRuns.MftIsByteExactIff` | crates/fs-ntfs/src/lib.rs:135-184 | From the stored pairs of a fragmented MFT: every byte, and so every record, is found at the address the runs give it if and only if the MFT has no hole. |
| `NtfsRuns.RecordInOnePiece` | crates/fs-ntfs/src/lib.rs:173-194 | A record lies in one piece when every extent holds whole records. |
| `ClusterChains.Chain` | crates/fs-fat/src/lib.rs:346-366 | The clusters from the first on, following the table up to the cap. |
| `ClusterChains.CapIff` | crates/fs-exfat/src/lib.rs:191-193 | The cap on a chain is what is asked for, but not more than the cluster numbers there are, and at least 1. |
| `ClusterChains.ChainIff` | crates/fs-exfat/src/lib.rs:187-207 | A list of clusters is the chain if and only if it starts at the first cluster, follows every link, does not pass an end or the cap, and ends only at one of them. |
| `ClusterChains.EndedHasNoRepeats` | crates/fs-exfat/src/lib.rs:185-207 | A chain that ends before the cap names no cluster twice. |
| `ClusterChains.RepeatsIffNeverEnds` | crates/fs-exfat/src/lib.rs:185-207 | With a cap above the number of clusters a chain names a cluster twice if and only if it never ends, and then it goes round up to the cap. |
| `ClusterChains.LoopIsFollowed` | crates/fs-exfat/src/lib.rs:185-207 | Two clusters that lead to each other are followed round and round. |
| `ClusterChains.Coalesce` | crates/fs-fat/src/lib.rs:863-906 | The extents of a chain: consecutive clusters merged, cut at the size, none empty. |
| `ClusterChains.CoalescedBytes` | crates/fs-exfat/src/lib.rs:483-528 | Coalescing moves no byte: the extents address the first min(size, chain) bytes of the clusters, cluster after cluster. |
| `ClusterChains.ContiguousBytes` | crates/fs-fat/src/lib.rs:452-471 | Reading on from the first cluster gives the bytes from its start on, up to the size or the end of the volume. |
| `ClusterChains.ContiguousIff` | crates/fs-fat/src/lib.rs:452-471 | Reading on from the first cluster gives the extents of the chain if and only if the clusters needed are consecutive and the volume does not end before the file. |
| `FatTable.OffsetIsLinear` | crates/fs-fat/src/lib.rs:205-223 | Cluster addresses, computed in sectors, are one cluster apart from the data area on, and every cluster lies inside the volume. |
| `FatLayout.DataAreaBegins` | crates/fs-fat/src/lib.rs:207-211 | The data area begins at the first sector boundary after the reserved sectors, all FATs and 32 bytes for every root entry. |
| `FatLayout.ClustersAreCounted` | crates/fs-fat/src/lib.rs:212-213 | As many clusters are counted as fit whole between there and the end of the volume. |
| `FatLayout.KindByCount` | crates/fs-fat/src/lib.rs:214-220 | 12-bit entries up to 4084 clusters, 16-bit ones up to 65,524, 32-bit ones from there on. |
| `FatLayout.Entry32` | crates/fs-fat/src/lib.rs:327-329 | A FAT32 entry written at four times its number is read back but for its upper four bits. |
| `FatLayout.Entry16` | crates/fs-fat/src/lib.rs:330-330 | A FAT16 entry written at twice its number is read back. |
| `FatLayout.Entry12` | crates/fs-fat/src/lib.rs:331-342 | Two FAT12 entries packed into three bytes are read back. |
| `FatLayout.EntryPastTheTable` | crates/fs-fat/src/lib.rs:308-322 | An entry past the table reads as 0. |
| `FatLayout.ChainStopsIff` | crates/fs-fat/src/lib.rs:346-366 | A chain stops at a cluster if and only if its entry is an end mark of its width, names no cluster, or names that cluster itself. |
| `FatTable.CacheIsTransparent` | crates/fs-fat/src/lib.rs:308-322 | An entry read through the cached FAT is the entry on disk. |
| `FatTable.EntryAfterPut` | crates/fs-fat/src/lib.rs:325-343 | Storing an entry sets that entry and leaves every other as it was, in 12-, 16- and 32-bit tables. |
| `FatTable.EntryAfterFree` | crates/fs-fat/src/lib.rs:325-343 | After a chain is freed its entries are 0 and no other entry has changed. |
| `FatFiles.ResolveExtents` | crates/fs-fat/src/lib.rs:438-472 | The extents of a file and whether they are an assumption, live and deleted. |
| `FatFiles.AssumedIff` | crates/fs-fat/src/lib.rs:438-471 | The result is marked as an assumption if and only if the file needs more than one cluster and is deleted or has no chain that gives extents. |
| `FatFiles.LiveIsByteExact` | crates/fs-fat/src/lib.rs:438-450 | A live file's extents are the first bytes of its chain, and all of the file if and only if the chain is long enough. |
| `FatFiles.ChainIsGone` | crates/fs-fat/src/lib.rs:346-366 | After deletion the table leads nowhere: the chain is its first cluster. |
| `FatFiles.DeletionKeepsExtentsIff` | crates/fs-fat/src/lib.rs:452-471 | A deleted file gets the extents it had as a live file if and only if its clusters were consecutive. |
| `ExFatFiles.ResolveExtents` | crates/fs-exfat/src/lib.rs:211-262 | The extents of a file and whether they are an assumption: its own flag, its chain, or what deletion left. |
| `ExFatFiles.AssumedIff` | crates/fs-exfat/src/lib.rs:211-262 | The result is marked as an assumption if and only if the file is chained, needs more than one cluster, and its chain gives no extents or, after deletion, too few clusters. |
| `ExFatFiles.NextReads` | crates/fs-exfat/src/lib.rs:178-183 | A link written in 32 bits at four times the cluster's number is read back. |
| `ExFatFiles.ChainStopsIff` | crates/fs-exfat/src/lib.rs:195-205 | A chain stops at a cluster if and only if its link is the end mark, names no cluster, or names that cluster itself. |
| `ExFatFiles.ClusterPlace` | crates/fs-exfat/src/lib.rs:167-175 | Cluster c is c - 2 clusters into the heap, for the clusters there are. |
| `ExFatFiles.ChainedIsByteExact` | crates/fs-exfat/src/lib.rs:246-261 | A file whose chain is long enough is byte exact, live or deleted. |
| `ExFatFiles.NextAfterPut` | crates/fs-exfat/src/lib.rs:178-183 | Storing a link sets that link and leaves every other as it was. |
| `ExFatFiles.ZeroingKeepsExtentsIff` | crates/fs-exfat/src/lib.rs:246-261 | A file whose chain was zeroed gets its old extents back if and only if its clusters were consecutive and, unless it needs only one, the volume is said to reach past them. |
| `ExFatFiles.NoFatChainIsTheChain` | crates/fs-exfat/src/lib.rs:223-244 | A file stored without a chain resolves as the chained file of the same consecutive clusters, if the volume reaches past them, and only then. |
| `Bitmaps.PackedGetSet` | crates/reclaim-fs-core/src/bitmap.rs:51-61 | In packed bits only the bit that is set or cleared changes. |
| `Bitmaps.AllocatedCount` | crates/reclaim-fs-core/src/bitmap.rs:106-126 | The count by bytes and a mask is the number of stored blocks that answer allocated, one by one. |
| `Bitmaps.StoredSize` | crates/reclaim-fs-core/src/bitmap.rs:106-126 | That number is the size of the set of described blocks that have a stored bit and answer allocated. |
| `FatBitmap.BuildBitmap` | crates/fs-fat/src/lib.rs:369-409 | Block c answers allocated exactly when entry c is non-zero, or there is no bit for c: past what is described, or from 2^27 on; blocks 0 and 1 answer free. |
| `FatLayout.DescribedIff` | crates/fs-fat/src/lib.rs:369-381 | The bitmap describes exactly the clusters the volume has whose entry lies inside the table, a 12-bit entry counted as one byte, up to 2^27. |
| `FatBitmap.OffsetsMatchIff` | crates/fs-fat/src/lib.rs:396-408 | All bytes of a cluster fall into that cluster's block if and only if the data area begins at least two clusters into the volume. |
| `FatBitmap.OffsetAnswers` | crates/reclaim-fs-core/src/bitmap.rs:63-72 | Then every byte of a cluster answers for its entry. |
| `FatBitmap.BeforeTheData` | crates/reclaim-fs-core/src/bitmap.rs:63-72 | Before the data area an offset answers allocated if and only if more than two clusters' room is left before the area, counted from 0 if it begins earlier. |
| `FatBitmap.DeletedReadsFree` | crates/fs-fat/src/lib.rs:369-409 | After a deletion the bytes of the freed clusters answer free and no other cluster's answer changes. |
| `ExtBitmap.BuildBitmap` | crates/fs-ext/src/lib.rs:134-182 | Every block answers what its own group's bitmap says; blocks of no group and blocks past the source answer allocated; no bitmap for none or too many blocks. |
| `ExtBitmap.SaidOnDisk` | crates/fs-ext/src/lib.rs:152-170 | Block i of group g is allocated if and only if bit i mod 8 of byte i / 8 of the group's bitmap block is set on disk, or the bitmap block has no such bit. |
| `ExtBitmap.SaidOfNoGroup` | crates/fs-ext/src/lib.rs:152-170 | A block before the first group or after the last is allocated. |
| `ExtBitmap.DescribedIff` | crates/fs-ext/src/lib.rs:134-150 | The bitmap describes exactly the blocks that the superblock counts and that begin inside the source, or at its end. |
| `ApfsTree.WalkLeaves` | crates/fs-apfs/src/btree.rs:153-204 | The visits, the remaining budget and the pointers fetched, as a function of graph, root and budget. |
| `ApfsTree.PointerReads` | crates/fs-apfs/src/btree.rs:186-188 | A child's address written in 64 bits is read back from a record's value. |
| `ApfsTree.LeafIff` | crates/fs-apfs/src/btree.rs:160-178 | A node is a leaf if its flag or its level says so. |
| `ApfsTree.TakenIsSpent` | crates/fs-apfs/src/btree.rs:168-182 | On any graph the nodes taken off the stack and the budget that is left add up to the budget. |
| `ApfsTree.WalkIsBounded` | crates/fs-apfs/src/btree.rs:165-204 | On any graph, cyclic or shared, no pointer is fetched twice, no more nodes are taken than pointers were fetched and the root, one unit of budget is spent on each, and the walk ends with an empty stack or a spent budget. |
| `ApfsTree.PushKeepsSane` | crates/fs-apfs/src/btree.rs:187-200 | A node puts only nodes of strictly lower level on the stack, and only for pointers not seen before. |
| `ApfsTree.WalkOfTree` | crates/fs-apfs/src/btree.rs:153-204 | If no pointer occurs twice below the root, a budget that covers its nodes visits every leaf record exactly once and is charged one per node; a smaller one is used up on a prefix of the same sequence. |
| `ApfsGraph.VisitsAreReachable` | crates/fs-apfs/src/btree.rs:165-204 | On any graph, with any budget, the visits are the records of leaves that can be reached from the root through ever lower levels, and no node is taken twice by one pointer. |
| `ApfsGraph.EveryReachableIsVisited` | crates/fs-apfs/src/btree.rs:165-204 | If no pointer is met both from a node above its block and from one that is not, and the budget exceeds the number of pointers, every node that can be reached is taken exactly once, shared ones too. |
| `ApfsGraph.MetTooLowIsMissed` | crates/fs-apfs/src/btree.rs:186-201 | A concrete graph with a shared block that is met too low first: it is reachable and never visited. |
| `ApfsOmap.IndexSays` | crates/fs-apfs/src/lib.rs:565-576 | After any visits an object is in the index exactly if some record at or before the transaction names it, with what a newest such record says. |
| `ApfsOmap.IndexOfTree` | crates/fs-apfs/src/lib.rs:552-580 | On a tree that the budget covers, the index maps each object to a newest mapping of the tree at or before the transaction, whatever the order of visits. |
| `ApfsOmap.EntryReads` | crates/fs-apfs/src/lib.rs:566-571 | A mapping written as bytes, object and transaction in the key, flags, size and address in the value, is read back. |
| `ApfsOmap.IndexResolves` | crates/fs-apfs/src/lib.rs:547-579 | From mappings stored in a tree to addresses: an object resolves to the address of a mapping that no stored one with a transaction up to the given one is newer than, and to none if there is none. |
| `ApfsOmap.IndexIsTheNewest` | crates/fs-apfs/src/lib.rs:547-579 | If no object has two mappings of one transaction, it resolves to the address of its newest mapping. |
| `ApfsOmap.LastOfEqualCounts` | crates/fs-apfs/src/lib.rs:573-576 | Of mappings of one transaction the one visited last counts. |
| `ApfsOmap.Container.BudgetedWalk` | crates/fs-apfs/src/lib.rs:535-548 | A walk visits what its capped budget allows, and the nodes all walks visited and the work left always add up to the container's budget. |
| `ApfsOmap.Container.OmapIndex` | crates/fs-apfs/src/lib.rs:552-580 | The index of a map's tree, empty if there is none; only the nodes of the walk are charged. |
| `ApfsOmap.BudgetIsConserved` | crates/fs-apfs/src/lib.rs:535-548 | However many trees are walked, over whatever graphs, the nodes taken off their stacks and the work left add up to the budget, and no walk takes more than its cap. |
| `Civil.CivilIsValid` | crates/fs-ntfs/src/date.rs:25-36 | For every integer day the month is one of twelve and the day one of its month, under the leap rule. |
| `Civil.CivilIsThatDay` | crates/fs-ntfs/src/date.rs:25-36 | For every integer day the date is that day by the count of years and months. |
| `Civil.CivilIsInverse` | crates/fs-ext/src/lib.rs:427-438 | Every valid date is the date of its day number. |
| `Civil.CivilFollowsTheCalendar` | crates/fs-apfs/src/civil.rs:8-26 | The date of the next day is the next date of the calendar. |
| `Civil.CivilAtTheEpoch` | crates/fs-ext/src/lib.rs:426-438 | Day 0 is 1970-01-01. |
| `Civil.FiletimeIsRefusedIff` | crates/fs-ntfs/src/date.rs:6-22 | A FILETIME is refused if and only if it is 0 or after the year 9999; the check of month and day never refuses. |
| `Civil.FiletimeCountsDays` | crates/fs-ntfs/src/date.rs:3-21 | An accepted FILETIME is the date of its whole days after 1601-01-01, also before 1970. |
| `Civil.MacDatesAreRefusedIff` | crates/fs-hfs/src/date.rs:10-27 | An HFS+ date is refused up to the first second of 1970 and after the first of 2100, a movie's before 1970. |
| `Civil.EpochsAreDates` | crates/fs-hfs/src/date.rs:6-16 | The offsets of the readers are whole days, from 1601-01-01 and 1904-01-01 to 1970-01-01. |
| `Civil.LimitsAreDates` | crates/fs-ntfs/src/date.rs:10-16 | Their limits are 2100-01-01 and the last second of the year 9999. |
| `Civil.CopiesAgree` | crates/fs-apfs/src/civil.rs:13-25 | For every integer day the unsigned copy, the signed copy and the one whose era is a Euclidean quotient give one date. |
| `Civil.NothingUnderflows` | crates/fs-ntfs/src/date.rs:28-33 | No subtraction of the unsigned copy goes below zero. |
| `Civil.ReadersAgree` | crates/fs-hfs/src/date.rs:12-36 | The five readers, on three copies of the computation, give one moment one date wherever their own limits accept it. |
| `Crc.StepsByTable` | crates/reclaim-carve/src/crc.rs:5-27 | Shifting k bits out is a table look-up of the low k bits, combined with the shifted rest. |
| `Crc.Table` | crates/reclaim-carve/src/crc.rs:5-27 | The table holds eight steps of every byte value. |
| `Crc.Crc32ByTable` | crates/reclaim-carve/src/crc.rs:31-41 | The table-driven routine computes the checksum that is defined bit by bit. |
| `Crc.Crc32ByBits` | crates/reclaim-part/src/crc.rs:6-16 | The bitwise routine computes the same, so the two agree on every byte string. |
| `Crc.BurstIsDetected` | crates/reclaim-part/src/crc.rs:1-16 | Two messages that differ only inside 32 neighbouring bits, wherever these begin, have different checksums. |
| `Crc.PolynomialOfTheStandard` | crates/reclaim-part/src/crc.rs:4-15 | The polynomial's bits, byte by byte, are the powers 26, 23, 22, 16, 12, 11, 10, 8, 7, 5, 4, 2, 1 and 0 of the standard, the highest in the lowest bit. |
| `Crc.BeginsWithOnes` | crates/reclaim-part/src/crc.rs:4-9 | A checksum begins with all 32 bits set. |
| `Crc.OfNothing` | crates/reclaim-part/src/crc.rs:4-16 | The checksum of no bytes is 0. |
| `Fletcher.Fletcher64Check` | crates/fs-apfs/src/obj.rs:95-109 | The two check words of the whole 32-bit words after the first eight bytes. |
| `Fletcher.Fletcher64Valid` | crates/fs-apfs/src/obj.rs:85-91 | A block is accepted exactly if it has eight bytes and they are the check words of the rest. |
| `Fletcher.FoldIsSums` | crates/fs-apfs/src/obj.rs:97-105 | The loop computes the plain and the weighted sum modulo 2^32 - 1. |
| `Fletcher.CheckWordsCancel` | crates/fs-apfs/src/obj.rs:77-84 | A body followed by its two check words brings both sums to zero. |
| `Fletcher.BlockOfWords` | crates/fs-apfs/src/obj.rs:77-109 | From bytes: a block of two stored words and a body, and up to three bytes more, is accepted if and only if the first four bytes are the first check word of the body and the next four the second. |
| `Fletcher.StoredWordsCancel` | crates/fs-apfs/src/obj.rs:77-84 | In an accepted block the body followed by the two stored words brings both sums to zero. |
| `Fletcher.CheckDetermines` | crates/fs-apfs/src/obj.rs:106-108 | Equal check words if and only if equal sums. |
| `Fletcher.ChangeIsSeenIff` | crates/fs-apfs/src/obj.rs:95-109 | A changed word goes unnoticed if and only if it is the same modulo 2^32 - 1. |
| `Fletcher.SwapIsSeenIff` | crates/fs-apfs/src/obj.rs:95-109 | Two neighbouring words change places unnoticed if and only if they are the same modulo 2^32 - 1. |
| `Fletcher.SameWordIff` | crates/fs-apfs/src/obj.rs:95-96 | Of two different words only 0 and 2^32 - 1 are the same modulo 2^32 - 1. |
| `Fletcher.OneByteIsSeenIff` | crates/fs-apfs/src/obj.rs:85-109 | An accepted block with one byte changed is still accepted if and only if the byte is after the last whole word. |
| `ExtDir.ParseDirBlock` | crates/fs-ext/src/dir.rs:49-88 | The live chain and, record by record, its slack, up to a corrupt length or the limit of records. |
| `ExtDir.ScanSlack` | crates/fs-ext/src/dir.rs:91-120 | The stale records of a stretch of slack, from the next multiple of 4 on. |
| `ExtDir.ParseOfHeld` | crates/fs-ext/src/dir.rs:49-120 | Of a block made of live records and, inside their lengths, absorbed records and zeros, the parser lists every live record with a plausible name as live and every absorbed one as deleted, in block order, and nothing else. |
| `ExtDir.DeleteWrites` | crates/fs-ext/src/dir.rs:1-9 | A deletion by absorption, two bytes written on disk, leaves such a block, with the victim in the slack of its predecessor. |
| `ExtDir.DeletionIsUndone` | crates/fs-ext/src/dir.rs:49-120 | However many records are deleted, in whatever order, the parser lists what it listed before, record by record; only the marks change. |
| `ExtDir.ParseListsIff` | crates/fs-ext/src/dir.rs:49-120 | On a block made of live and absorbed records, an entry is in the parser's result if and only if it is a live record with a plausible name, as live, or a record in some slack, as deleted. |
| `ExtDir.LiveIsListedIff` | crates/fs-ext/src/dir.rs:125-133 | The parser leaves a live record of such a block out if and only if its name is not plausible, as "." and ".." are. |
| `ExtDir.ParseIsListable` | crates/fs-ext/src/dir.rs:49-133 | On any bytes, corrupt ones too: every entry that is listed has an inode and a name of printable bytes without "/", not "." or "..", and a deleted one has an inode number that exists. |
| `ExtDir.AfterTheLimit` | crates/fs-ext/src/dir.rs:55-59 | After 100,000 records nothing more is listed. |
| `ExtDir.StaleIsListedIff` | crates/fs-ext/src/dir.rs:91-120 | A whole record in slack is listed as deleted, and passed over, if and only if its entry may be; otherwise the search goes on inside it. |
| `ExtDir.UnusedIsSlack` | crates/fs-ext/src/dir.rs:83-86 | A record without an inode lists nothing itself, and the records in it from its ninth byte on are listed as deleted. |
| `ExtDir.VictimIsListedDeleted` | crates/fs-ext/src/dir.rs:1-9 | After the two-byte write of a deletion the parser lists the victim as deleted. |
| `ExtInodes.HarvestInodeBlock` | crates/fs-ext/src/journal.rs:185-218 | Every slot of a table block that holds a usable inode is entered under its number unless one is there already, and nothing else is entered or changed; a block of no table changes nothing. |
| `ExtInodes.SlotIsLocatedIff` | crates/fs-ext/src/journal.rs:199-204 | A slot's number leads back to the slot if and only if the slot is within its group. |
| `ExtInodes.HarvestNumbersPlaces` | crates/fs-ext/src/journal.rs:192-204 | If tables are disjoint and a group fills at least a block, every slot of every table block is given the number of the inode that is there. |
| `ExtInodes.InodePlace` | crates/fs-ext/src/sb.rs:44-59 | Inode i of group g is i inodes into the group's table; inode 0 has no place. |
| `ExtInodes.NoPlacePastTheGroups` | crates/fs-ext/src/sb.rs:44-59 | No inode after those of the last group has a place. |
| `ExtInodes.SlotIsCut` | crates/fs-ext/src/journal.rs:207-214 | Slot k of a block is what stands k inodes into it, if all of it is inside. |
| `ExtInodes.SlotIsTheInode` | crates/fs-ext/src/journal.rs:199-214 | From bytes: slot k of a table block yields, under its number, what is read from the place of the inode of that number on the disk. |
| `ExtInodes.SlotIsUnique` | crates/fs-ext/src/sb.rs:44-59 | Two slots within their groups with one number are one slot. |
| `ExtInodes.CoveredIff` | crates/fs-ext/src/sb.rs:44-59 | An addressable inode is some slot's if and only if its index is inside the blocks counted for the table. |
| `ExtInodes.AllCoveredIff` | crates/fs-ext/src/journal.rs:33-39 | All addressable inodes are some slot's if and only if a table fills whole blocks or is smaller than one. |

## Left out

- Saturating 64-bit arithmetic: quantities are unbounded naturals, so wrap and saturation near 2^64 are not modelled; the NTFS cluster number wraps as in the source, and 32-bit counts are bounded where the code depends on it.
- SQLite, files, event logs, clocks and threads: the store is a map and one progress row, a failed transaction is a step, the checkpoint interval is a flag of a step, the carve thread and the writer take turns at steps.
- Devices that vanish during a scan, a second SIGINT, and read errors that change over time under the cache.
- Format validators, text detection and carvers: a candidate carries its verdict. The statistical text pass treats a chunk boundary as the start of a region and is dependent on chunks by design.
- Verdicts that move a file's start away from its header: the results about greedy passes and lost results are for verdicts that keep it. Crash safety, and exact resuming at safe cuts, are for all.
- ScanResume.UnsafeCutIsExposed: no two acceptable candidates are one file; without that the store can be exact by chance, as `ScanLoss.PromiseMayHoldAnyway` shows.
- The order in which the headers reported at one file start are tried: a verdict depends on the file start and on the set of these headers.
- BlockSource.ReadAt: towers stand on a file that has its recorded length and whose reads do not fail; `BlockSource.ReadFileAt` itself covers the others.
- `CarveOptions` other than the block size are the same in every run of a session.
- Aho-Corasick: a search is a list of all occurrences, each once.
- Unread sectors inside the cache: `fetch` does not carry them; in the tower no source produces any.
- Container formats, the imager, BLAKE3, and opening a device or an image.
- Byte-level layout of B-tree nodes (header, table of contents, key and value offsets): a node is its level, its leaf flag and the records that parse; `fetch` is an oracle.
- Parsing of boot sectors, superblocks, inodes and MFT records beyond the fields the modelled functions use; update sequence fix-ups; the fallback to a contiguous MFT.
- The allocation bitmaps of exFAT, NTFS, HFS+ and APFS, `unallocated_fraction`, scores and confidences.
- Heuristic sweeps: first-cluster repair for FAT32, orphan and INDX mining for NTFS, the stale scan of HFS+, lost-structure anchors.
- HFS+ forks, GPT, MBR and ISO parsing: they repeat forms of the extent and bounds arguments made here.
- `walk` over directory trees, names in UTF-16 or with losses, paths, reports, command line and app.
- ext directory blocks whose first record was deleted by zeroing its inode: the code does not list it, and of what is listed of its slack `ExtDir.UnusedIsSlack` speaks.
- A directory's cap of 2,000,000 entries, applied between blocks.
- ExtDir.ParseOfHeld: for blocks of at most 100,000 live records, the code's own limit; a block would have to be larger than 800,000 bytes to hold more.
- ExtInodes.HarvestNumbersPlaces: inode size divides block size, as the superblock's powers of two make it.
- ExFatFiles.ZeroingKeepsExtentsIff: the chain is long enough for the file; a shorter chain is a broken file.
- FatFiles.DeletionKeepsExtentsIff: the chain is long enough for the file, and its entries are stored inside the source.
- ApfsTree.WalkOfTree: the order of visits is for graphs in which no pointer occurs twice; `ApfsGraph` says what is visited on others.
