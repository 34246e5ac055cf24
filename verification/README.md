# Fluxum: verified models of the data-critical core

Fluxum is a realtime database. This project models the parts of it whose mistakes would lose or
misorder data, and proves what those parts are for. Pure logic is functions and lemmas; what the
system changes in place (the collaborative document, the write buffer, the simulated world and its oracle, the
change-data pump, the chunk decoder) is classes and loops proved against those functions.

| files | what they model |
|---|---|
| `CrdtDocs`, `CrdtOrder`, `CrdtEdits`, `CrdtConvergence`, `CrdtDelta`, `CrdtMarks`, `CrdtEditors`, `CrdtText` | the RGA text CRDT: order, local edits, convergence, deltas, stamps, networks of editors, and the document object with its stack walk |
| `TxBuffer`, `Recovery`, `LateStamps`, `CrashSim`, `CrashRuns`, `CrashHoles`, `CrashMarked`, `CrashDraws`, `CrashWorld` | transactions, and crash recovery as a step machine against an oracle: commits, acknowledgements, corruptible checkpoints, pruning, compaction, crashes |
| `CommitLog`, `SinkFile`, `CdcDiffs`, `CdcSink`, `CdcRuns` | the change-data pump: a follower of the durable log with a persisted offset |
| `Replication` | a replica fed over a network that drops and duplicates batches |
| `Frames` | the bytes of a log segment and the two scans over them |
| `Calendar`, `Rfc3339`, `Rfc3339Stamps`, `Rfc3339Accepts` | day numbers, civil dates, and point-in-time arguments |
| `Chunks`, `LogLines` | the incremental chunked-transfer decoder and its log lines |
| `Decimals` | comparing decimals across scales in 128 bits |
| `Droplet` | the capped multiset diff behind the tiering verdict |
| `Sorted`, `Wrappers` | shared sequence lemmas; Option and Result |

`dafny verify dfyconfig.toml` checks everything.

## Where the code does less than its comments say

- Editors whose actors collide do break convergence (`crates/fluxum-core/src/crdt.rs:119-121` says
  they never do). `CrdtConvergence.ConcurrentEditsMerge` gives the exact condition.
- An op that arrives below its actor's high-water mark is never sent in a delta.
  `CrdtDelta.DeltaExact` gives the exact condition.
- A document does not stay above every op it has seen (`crates/fluxum-core/src/crdt.rs:129`, `:303`): a
  delete that displaces a newer tombstone makes it forget that op, and a delete that loses to an older
  tombstone is never recorded. An editor can then reuse the id of its own delete, and the new letter
  never reaches a peer that still shows it (`CrdtMarks.StampReused`, `CrdtMarks.LateDeleteIgnored`).
  `CrdtMarks.NextStampDrops`, `CrdtMarks.MarkDrops` and `CrdtMarks.IgnoredExactly` say exactly when for
  one op, `CrdtMarks.ShownAfterRun` and `CrdtMarks.PromiseExact` for a whole run; inserts are never
  forgotten (`CrdtMarks.InsertsRemembered`).
- The simulator's survivability guard looks at the compaction floor only. A crash that adopts a
  checkpoint past the cut log leaves a hole the guard does not see. The exact guard is the same test
  against the top hole in the log (`CrashRuns.StepExact`); every possible run that breaks it can be made to
  fail with rows the simulator can draw (`CrashDraws.UnguardedRunFails`); the simulator's own is enough as long as no crash does that
  (`CrashRuns.FloorGuardEnough`).
- A checkpoint stamped below its snapshot recovers the full-replay state when the surviving log reaches
  the snapshot (`LateStamps.LowStampRecovers`). When it does not, recovery does so if and only if every key
  the replayed records leave alone had the same row at the end of the log as in the snapshot
  (`LateStamps.ShortLogExact`); otherwise it can give rows that never were (`LateStamps.ShortLogMixes`).
- Upserting a row away and back stays pending and is logged, although the buffer is documented to
  cancel identical content (`TxBuffer.UpsertBackIsLogged`).
- A drain stops at a missing entry while the hole stays in the retained log: with everything healthy it
  reaches the tip if and only if there is no such hole (`CdcSink.CdcSink.DrainTo`,
  `CdcRuns.StopsAtHole`).
- A zero compares equal to every non-zero decimal whose scale is at least 39 larger
  (`Decimals.ComparesValues`); the comment that an overflowing coefficient is never 0 overlooks that
  the power of ten itself overflows.
- A chunk whose extension is not UTF-8, as section 7.1.1 of RFC 9112 allows it to be, ends the log stream
  (`Chunks.ObsTextEndsStream`); `Chunks.DecodesEncoding` gives the exact condition.
- The timestamp parser takes any day up to 31 for any month and reads it as a day of the next month
  (`Rfc3339Stamps.ShortMonthsRunOn`). It does not look at the separators of the time of day
  (`Rfc3339Accepts.LettersForColons`), and takes signed fields, hours up to 99 and a missing zone
  (`Rfc3339Accepts.LooseIsAccepted`); `Rfc3339Accepts.AcceptedExactly` says which accepted texts are date-times. It refuses the
  lower-case `t` that RFC 3339 allows.

## Model

| member | source | states |
|---|---|---|
| `CrdtDocs.AppliedForest` | crates/fluxum-core/src/crdt.rs:252-289 | One op, well-ordered or not, leaves a forest a forest: no dangling parent and no cycle can arise. |
| `CrdtDocs.ReachableForest` | crates/fluxum-core/src/crdt.rs:246-301 | Every document reachable through any sequence of successful ops is a forest. |
| `CrdtDocs.RunGrows` | crates/fluxum-core/src/crdt.rs:246-289 | No op ever drops a character or changes what it was typed after. |
| `CrdtDocs.PathUnique` | crates/fluxum-core/src/crdt.rs:93-101 | In any document a character has at most one chain of parents up to a document start. |
| `CrdtDocs.PathKept` | crates/fluxum-core/src/crdt.rs:252-289 | A character's chain of parents never changes as the document grows. |
| `CrdtOrder.PreorderSorted` | crates/fluxum-core/src/crdt.rs:143-166 | The newest-sibling-first walk below any siblings visits exactly their descendants, in the lexicographic order of root paths. |
| `CrdtOrder.DocumentSorted` | crates/fluxum-core/src/crdt.rs:143-191 | The walk of a forest visits every entry, tombstones included, exactly once, in path order. |
| `CrdtOrder.DocumentUnique` | crates/fluxum-core/src/crdt.rs:143-191 | It is the only sequence with that property, so document order is determined by the entries alone. |
| `CrdtOrder.SiblingsInOrder` | crates/fluxum-core/src/crdt.rs:143-166 | Everything under the newer of two siblings precedes everything under the older. |
| `CrdtOrder.OrderStable` | crates/fluxum-core/src/crdt.rs:252-289 | Whatever ops arrive, the old full order is the new full order with the newcomers left out: nothing present is ever reordered. |
| `CrdtOrder.DescendantsContiguous` | crates/fluxum-core/src/crdt.rs:143-166 | A character and everything typed after it fill exactly one interval of the document, headed by that character. |
| `CrdtOrder.RunsNeverInterleave` | crates/fluxum-core/src/crdt.rs:143-166 | Two typed runs neither of which starts inside the other never interleave: all of one precedes all of the other. |
| `CrdtEdits.NewestInsert` | crates/fluxum-core/src/crdt.rs:193-220 | An insert newer than the whole document lands directly behind the character it names, ahead of all concurrent siblings. |
| `CrdtEdits.InsertStep` | crates/fluxum-core/src/crdt.rs:193-220 | Typing one character at a visible position changes the text by exactly that character at that position, with any tombstones and siblings around. |
| `CrdtEdits.DeleteKeepsDocument` | crates/fluxum-core/src/crdt.rs:275-288 | A delete never moves any entry. |
| `CrdtEdits.DeleteStep` | crates/fluxum-core/src/crdt.rs:222-244 | Deleting the character at a visible position removes it and nothing else from the text. |
| `CrdtConvergence.RunOutcome` | crates/fluxum-core/src/crdt.rs:246-289 | What a successful run leaves, told without its order: the union of inserts, and per character the smallest delete id. |
| `CrdtConvergence.Converges` | crates/fluxum-core/src/crdt.rs:102-107 | Strong convergence: from any document, two successful runs with the same set of ops, in any order and with any repetition, end in equal documents if no new id has two meanings. |
| `CrdtConvergence.ReplayIsNoOp` | crates/fluxum-core/src/crdt.rs:246-289 | Re-applying any op already applied changes nothing. |
| `CrdtConvergence.ConcurrentEditsMerge` | crates/fluxum-core/src/crdt.rs:119-121 | Two edits composed against one snapshot apply in either order, and the two orders agree if and only if no new character id was given two meanings. |
| `CrdtConvergence.ActorCollisionDiverges` | crates/fluxum-core/src/crdt.rs:119-121 | Refutes the comment that actor collisions never affect convergence: two editors with one actor, one snapshot, two different results. |
| `CrdtDelta.RunLamport` | crates/fluxum-core/src/crdt.rs:50-60 | Lamport order (stamps from 1, parents and targets older) is kept by every run of ops that respect it. |
| `CrdtDelta.DeltaApplies` | crates/fluxum-core/src/crdt.rs:291-301 | Applied in id order, a delta is never refused: parents and delete targets are always there first. |
| `CrdtDelta.DeltaExact` | crates/fluxum-core/src/crdt.rs:319-345 | Applying the delta to the older document yields the newer one if and only if every change since is above the older document's high-water marks. |
| `CrdtDelta.EditsFit` | crates/fluxum-core/src/crdt.rs:319-345 | Ops that are all above the marks, such as local edits, always satisfy that condition. |
| `CrdtDelta.LateOpIsLost` | crates/fluxum-core/src/crdt.rs:319-345 | Concrete case where it fails: an op that arrives below its actor's mark is missing from the delta for good. |
| `CrdtMarks.ForgetsExactly` | crates/fluxum-core/src/crdt.rs:275-288 | An op makes the document forget an op it showed if and only if it is a delete whose id is older than the target's tombstone, no other character carries that tombstone and it is no character's id; that tombstone is what is forgotten. |
| `CrdtMarks.ForgetsIff` | crates/fluxum-core/src/crdt.rs:275-288 | So some op is forgotten if and only if a standing tombstone is displaced in this way. |
| `CrdtMarks.IgnoredExactly` | crates/fluxum-core/src/crdt.rs:275-288 | An op leaves no trace of itself if and only if it is a delete that loses to an older tombstone and is not shown otherwise; only then can the next stamp stay at or below the op's own. |
| `CrdtMarks.NextStampDrops` | crates/fluxum-core/src/crdt.rs:129-139 | The next stamp goes down if and only if the op displaces the single shown op with the top stamp, by one with a smaller stamp. |
| `CrdtMarks.MarkDrops` | crates/fluxum-core/src/crdt.rs:303-317 | An actor's mark goes down if and only if the op displaces that actor's highest shown op. |
| `CrdtMarks.KeepsAll` | crates/fluxum-core/src/crdt.rs:129-139 | A step-by-step sufficient condition (the exact one is in the next two rows): over a run in which no op is ignored or displaced, next stamp and marks are above every op applied. |
| `CrdtMarks.ShownAfterRun` | crates/fluxum-core/src/crdt.rs:129-139 | Over every run, told without the order of the ops: a document still shows an op if and only if it is an insert or the oldest delete of some character. |
| `CrdtMarks.PromiseExact` | crates/fluxum-core/src/crdt.rs:303-317 | So after every run the next stamp is above an op seen, and its actor's mark covers it, if and only if an op at least as high (of the same actor, for the mark) is still shown in that sense. |
| `CrdtMarks.InsertsRemembered` | crates/fluxum-core/src/crdt.rs:129-139 | Over every run, no insert is ever forgotten, so a later local insert on that replica takes no earlier insert's id. |
| `CrdtMarks.StampReused` | crates/fluxum-core/src/crdt.rs:55-56 | Refutes 'greater than every op seen': a causal run with distinct actors after which an editor reuses the id of its own delete, and the new letter is missing from the delta to a peer. |
| `CrdtMarks.LateDeleteIgnored` | crates/fluxum-core/src/crdt.rs:303-303 | Refutes 'every op this doc has applied': a second delete with a high stamp is applied and leaves the next stamp below it. |
| `CrdtEditors.FreshId` | crates/fluxum-core/src/crdt.rs:193-220 | Among editors with distinct actors a new insert takes no id any insert ever had, on any replica. |
| `CrdtEditors.EditorsSound` | crates/fluxum-core/src/crdt.rs:3-19 | Over every run of distinct actors editing locally and receiving each other's ops in any order, no insert id gets two meanings and every op keeps the Lamport order. |
| `CrdtEditors.EditLamport` | crates/fluxum-core/src/crdt.rs:193-244 | Ops stamped from above a document on, as local edits are, are newer than what they are typed after or delete. |
| `CrdtEditors.EditorsConverge` | crates/fluxum-core/src/crdt.rs:102-107 | So any two editors that have applied the same ops hold equal documents, whatever the ops. |
| `CrdtEditors.EditorsDelta` | crates/fluxum-core/src/crdt.rs:319-345 | Over every such run, between any two editors: the delta turns one's document into the other's if and only if every change is above the first one's marks, with no Lamport hypothesis left. |
| `CrdtText.Children` | crates/fluxum-core/src/crdt.rs:143-155 | The child table built by grouping and sorting holds, for every parent, its children newest first. |
| `CrdtText.WalkStep` | crates/fluxum-core/src/crdt.rs:156-166 | One pop and push of the stack moves the walk on by exactly the next character in document order, and the work left shrinks. |
| `CrdtText.CrdtText.VisibleIds` | crates/fluxum-core/src/crdt.rs:168-191 | The explicit-stack walk terminates and returns the non-tombstones of the recursive document order. |
| `CrdtText.CrdtText.ReadText` | crates/fluxum-core/src/crdt.rs:141-166 | The text is the characters of the visible ids, in order. |
| `CrdtText.CrdtText.Apply` | crates/fluxum-core/src/crdt.rs:246-289 | Applies one op in place; it is refused exactly when it names an unknown character, and then nothing changes. |
| `CrdtText.CrdtText.NextSeq` | crates/fluxum-core/src/crdt.rs:129-139 | One above the highest stamp of any op the document still shows; when that falls short of every op seen is stated exactly by the CrdtMarks rows. |
| `CrdtText.CrdtText.LocalInsert` | crates/fluxum-core/src/crdt.rs:193-220 | For every position, string and actor: refused exactly when out of range; otherwise the text is old[..pos] + string + old[pos..], and the returned ops replay to the same document, are stamped upwards from the next stamp, are above every mark and in Lamport order. |
| `CrdtText.CrdtText.LocalDelete` | crates/fluxum-core/src/crdt.rs:222-244 | For every range: refused exactly when out of range; otherwise the text loses exactly old[pos..pos+len], and the returned ops replay to the same document. |
| `CrdtText.CrdtText.ApplyOps` | crates/fluxum-core/src/crdt.rs:291-301 | Applies a permutation of the ops sorted by id, and stops at the first refused one with everything before it applied. |
| `CrdtText.CrdtText.VersionVector` | crates/fluxum-core/src/crdt.rs:303-317 | Per actor the highest stamp of any op the document still shows: every mark is a real op and every shown op is covered; when that falls short of every op applied is stated exactly by the CrdtMarks rows. |
| `CrdtText.CrdtText.OpsSince` | crates/fluxum-core/src/crdt.rs:319-345 | Exactly the inserts and tombstones above the older document's marks, in id order. |
| `CrdtText.CatchUp` | crates/fluxum-core/src/crdt.rs:291-345 | ops_since followed by apply_ops makes the held document equal to the newer one if and only if the changes fit its marks. |
| `TxBuffer.Tx.Write` | crates/fluxum-core/src/store/memstore/tx.rs:134-230 | An insert is refused exactly when the key is visible through the buffer, an upsert never; the visible rows change at that key only; the buffer stays minimal exactly unless an upsert puts the committed row back over a pending update. |
| `TxBuffer.Tx.DeleteOne` | crates/fluxum-core/src/store/memstore/tx.rs:475-521 | Returns and removes exactly the visible row of the key. |
| `TxBuffer.Tx.Commit` | crates/fluxum-core/src/store/memstore/tx.rs:815-915 | The merge yields exactly the visible rows and the buffer's own record, which leads to them from the committed ones; from a minimal buffer it is empty exactly when nothing changed. |
| `TxBuffer.MutateBoth` | crates/fluxum-dst/src/sim.rs:304-384 | Every mutation of the simulator: the engine's buffer accepts, refuses and finds exactly what the oracle predicts. |
| `TxBuffer.Transact` | crates/fluxum-dst/src/sim.rs:298-397 | A whole transaction, mutation by mutation: the committed rows are the oracle's, and the engine's record is the one its buffer holds, leads there and is empty exactly when nothing changed. |
| `TxBuffer.UpsertBackIsLogged` | crates/fluxum-core/src/store/tx.rs:21-25 | Refutes that an identical-content rewrite never stays pending: upserting a row away and back is logged as a delete and an insert. |
| `Recovery.FaultLeavesPrefix` | crates/fluxum-dst/src/sim.rs:640-693 | A lost, torn or flipped entry: after quarantine exactly the entries before it survive, even when intact entries follow a flipped one. |
| `Recovery.Recover` | crates/fluxum-core/src/checkpoint/recover.rs:78-138 | The recovery loops compute: newest checkpoint that verifies, plus the replay of every surviving record above it. |
| `Recovery.ReplayReaches` | crates/fluxum-core/src/checkpoint/recover.rs:128-138 | Replay over a log with no hole above the checkpoint reaches the oracle's state. |
| `LateStamps.KeyReplayed` | crates/fluxum-core/src/checkpoint/recover.rs:66-73 | Replay from a snapshot stamped below its real transaction, key by key: a key already rewritten has the row of the transaction reached, any other the snapshot's. |
| `LateStamps.LowStampRecovers` | crates/fluxum-core/src/checkpoint/recover.rs:66-73 | Such a checkpoint recovers exactly the full-replay state whenever the log reaches the snapshot. |
| `LateStamps.ShortLogExact` | crates/fluxum-core/src/checkpoint/recover.rs:66-73 | When the log ends below the snapshot, recovery gives the full-replay state if and only if every key the replayed records leave alone had the same row at the end of the log as in the snapshot. |
| `LateStamps.SnapshotIntact` | crates/fluxum-core/src/checkpoint/recover.rs:66-73 | And it leaves the snapshot intact if and only if every key they rewrite had its snapshot row already. |
| `LateStamps.ShortLogMixes` | crates/fluxum-core/src/checkpoint/recover.rs:66-73 | Neither need hold: a checkpoint stamped 1 over a log with transaction 2 only recovers rows that no prefix of the history ever had. |
| `CrashSim.CrashRecovers` | crates/fluxum-dst/src/sim.rs:625-746 | From every recoverable state, every possible crash: recovery adopts the expected checkpoint, lands on n = max(kept log, newest valid checkpoint), n is no lower than anything acknowledged, and the rows are the oracle's at n. |
| `CrashSim.CrashKeeps` | crates/fluxum-dst/src/sim.rs:706-746 | The crash leaves a recoverable state, with no checkpoint of an abandoned timeline that verifies. |
| `CrashRuns.HoleTopExact` | crates/fluxum-dst/src/sim.rs:160-178 | The log is complete above a floor if and only if its top hole is no higher than the floor. |
| `CrashRuns.CheckpointExact` | crates/fluxum-dst/src/sim.rs:436-488 | Writing (and perhaps corrupting) a checkpoint keeps recoverability if and only if the corruption passes the survivability test against the top hole. |
| `CrashRuns.PruneExact` | crates/fluxum-dst/src/sim.rs:492-519 | The same for pruning to two checkpoints. |
| `CrashRuns.CompactedExact` | crates/fluxum-core/src/checkpoint/compact.rs:75-102 | Compaction drops leading covered entries only, and as many as it is allowed to. |
| `CrashRuns.MaintainExact` | crates/fluxum-dst/src/sim.rs:492-537 | Compaction to the oldest valid checkpoint never costs recoverability; only the pruning before it can. |
| `CrashRuns.StepExact` | crates/fluxum-dst/src/sim.rs:748-772 | For every step from a recoverable state: the next state is recoverable if and only if the hole guard holds. |
| `CrashRuns.EveryCrashRecovers` | crates/fluxum-dst/src/sim.rs:748-772 | Safety over every run of commits, aborts, acknowledgements, checkpoints, corruptions, prunes, compactions and crashes that passes the hole guard: every crash meets all of the simulator's assertions. |
| `CrashRuns.EveryRunRecovers` | crates/fluxum-dst/src/sim.rs:748-772 | The same for every guarded run from an empty database. |
| `CrashRuns.NoAckHangs` | crates/fluxum-dst/src/sim.rs:417-432 | After every guarded run an acknowledgement never waits for a transaction the reopened log will not flush. |
| `CrashRuns.FloorGuardEnough` | crates/fluxum-dst/src/sim.rs:469-470 | The simulator's own guard against the compaction floor suffices for every run in which no crash adopts a checkpoint past the log it cut. |
| `CrashRuns.FloorGuardedRunRecovers` | crates/fluxum-dst/src/sim.rs:469-470 | The same for every such run from an empty database. |
| `CrashHoles.FloorGuardMissesCrashHoles` | crates/fluxum-dst/src/sim.rs:506-507 | A run of eight possible steps that passes the simulator's guard, after which a possible crash that loses nothing recovers the wrong rows. |
| `CrashHoles.UncoveredFails` | crates/fluxum-dst/src/sim.rs:706-730 | An uncovered transaction makes recovery wrong for any contents of the same shape in which it alone writes some key. |
| `CrashHoles.TellingApart` | crates/fluxum-dst/src/sim.rs:304-320 | There are such contents with two users only: the transaction inserts one, every other transaction rewrites the other. |
| `CrashHoles.CoverageExact` | crates/fluxum-dst/src/sim.rs:160-178 | Recovery is right for all row contents if and only if the newest valid checkpoint covers every hole in the log. |
| `CrashMarked.MarkedRunReaches` | crates/fluxum-dst/src/sim.rs:748-772 | Letting the commits of a guarded run write other rows, any coherent ones, gives a possible run that reaches the state with those rows. |
| `CrashDraws.MarkedRunDrawn` | crates/fluxum-dst/src/sim.rs:298-397 | Along any guarded run those contents can be drawn: every commit is what one to four mutations with user ids below 32 and names u{id}-{n} leave in the engine's buffer. |
| `CrashDraws.UnguardedRunFails` | crates/fluxum-dst/src/sim.rs:436-537 | The hole guard is needed: every possible run that does not pass it has a version, cut after its first unguarded step and differing only in the rows committed, that the simulator can draw mutation by mutation and after which a crash that loses nothing recovers the wrong rows. |
| `CrashDraws.HoleRunDrawn` | crates/fluxum-dst/src/sim.rs:506-507 | The eight-step run past the simulator's guard can be drawn too. |
| `CrashWorld.Model.Commit` | crates/fluxum-dst/src/model.rs:55-64 | The oracle records a transaction and stays in order. |
| `CrashWorld.Model.RetainPrefix` | crates/fluxum-dst/src/model.rs:68-84 | The oracle rewinds to exactly the prefix up to n, its current rows with it. |
| `CrashWorld.World.OpTransaction` | crates/fluxum-dst/src/sim.rs:298-413 | Commit and rollback as they update the world, for any record the engine hands over, are the commit and abort steps. |
| `CrashWorld.World.OpMutations` | crates/fluxum-dst/src/sim.rs:298-413 | A transaction given by its mutations, played on buffer and oracle alike: the store holds the oracle's rows and the log gains the engine's own record. |
| `CrashWorld.World.OpAck` | crates/fluxum-dst/src/sim.rs:417-432 | The acknowledgement as it runs is the ack step. |
| `CrashWorld.World.OpCheckpoint` | crates/fluxum-dst/src/sim.rs:436-488 | Writing and corrupting a checkpoint as it runs is the checkpoint step. |
| `CrashWorld.World.OpPruneAndCompact` | crates/fluxum-dst/src/sim.rs:492-537 | Pruning and compacting as they run are the maintenance step. |
| `CrashWorld.World.OpCrash` | crates/fluxum-dst/src/sim.rs:625-746 | Crash, recovery and rewinding as they run are the crash step; no assertion of the simulator fails. |
| `CrashWorld.Simulate` | crates/fluxum-dst/src/sim.rs:748-772 | A whole simulation on the mutable world, every step past the hole guard: it ends where the step machine does, recoverable. |
| `CommitLog.ReadFramesAfter` | crates/fluxum-core/src/commitlog/mod.rs:95-144 | Contiguous frames from after + 1, at least one if there is one; more than one only within the byte budget, and stopping short only at a frame that would exceed it. |
| `SinkFile.StoredLoads` | crates/fluxum-core/src/cdc.rs:100-134 | Round trip: the stored offset is the loaded one. |
| `SinkFile.CutValue` | crates/fluxum-core/src/cdc.rs:100-115 | The decimal text of an offset cut at any byte reads as no larger number. |
| `SinkFile.TornLoadsNoLater` | crates/fluxum-core/src/cdc.rs:117-134 | However a store ends, torn at any byte included, the next load is never past the offset being stored or the one before. |
| `CdcDiffs.RecordToDiff` | crates/fluxum-core/src/cdc.rs:165-200 | The conversion loop computes the in-scope diff, failing exactly when an in-scope row does not decode. |
| `CdcDiffs.DiffShows` | crates/fluxum-core/src/cdc.rs:165-200 | A table is in the diff exactly when the record touches it in scope, with full inserted rows and deleted keys. |
| `CdcDiffs.CountersShow` | crates/fluxum-core/src/cdc.rs:165-200 | A counter update is in the diff exactly when its table is in scope. |
| `CdcDiffs.BuildBatch` | crates/fluxum-core/src/cdc.rs:344-362 | A batch is exactly the non-empty diffs of the frames up to the clamped end, in strictly increasing order. |
| `CdcSink.BatchAccounts` | crates/fluxum-core/src/cdc.rs:344-396 | A delivered batch accounts for every transaction it moves the offset past. |
| `CdcSink.BatchGenuine` | crates/fluxum-core/src/cdc.rs:344-396 | What is delivered is the diff of a durable record, above the old offset, not past the new one, in order. |
| `CdcSink.CdcSink.Start` | crates/fluxum-core/src/cdc.rs:257-279 | Resumes from the later of the persisted offset and the sink's own, persisting when the sink was ahead; everything below stays accounted for. |
| `CdcSink.CdcSink.Store` | crates/fluxum-core/src/cdc.rs:117-134 | Persisting, with failures that leave the file as it was or cut short, keeps the invariant. |
| `CdcSink.CdcSink.SkipGap` | crates/fluxum-core/src/cdc.rs:327-341 | Skips exactly the truncated gap up to the tip, records it and meters one drop. |
| `CdcSink.CdcSink.Decline` | crates/fluxum-core/src/cdc.rs:363-385 | A refusal moves nothing; the sink is dropped exactly when it panicked or its lag exceeds the threshold. |
| `CdcSink.CdcSink.Offer` | crates/fluxum-core/src/cdc.rs:363-396 | Offering a batch: it stops only on a refusal, fails only on a failed store, and otherwise moves and meters exactly the batch. |
| `CdcSink.CdcSink.Plan` | crates/fluxum-core/src/cdc.rs:308-362 | What the log offers next, clamped to the durable tip: a batch, a gap, nothing readable, or a corrupt record. |
| `CdcSink.CdcSink.DrainTo` | crates/fluxum-core/src/cdc.rs:303-396 | Terminates; never passes the tip or moves back; sends only between the old and new offset and over no hole; metered advances plus gaps equal the offset advance; drops are the gaps plus the lag drops, of which a drain makes at most one; with a healthy sink and store it stops only at the tip or a hole, and reaches the tip if and only if there is none. |
| `CdcRuns.LiveAll` | crates/fluxum-core/src/cdc.rs:289-296 | At least once over every run of starts, drains, refusals, panics, disables, failed or torn stores, truncation and lost files: each durable transaction at or below the persisted offset was in an accepted batch, had nothing in scope, lay in a truncated gap, or is below an offset the sink reported; and the metered drops are exactly the gaps plus the lag drops. |
| `CdcRuns.StopsBefore` | crates/fluxum-core/src/cdc.rs:320-343 | With everything healthy a drain stops right before the first hole of the retained log, on every wake. |
| `CdcRuns.StopsAtHole` | crates/fluxum-core/src/cdc.rs:320-343 | A concrete log of transactions 1 and 3: the first drain delivers one, the next nothing. |
| `Replication.AppliesNext` | crates/fluxum-core/src/store/memstore.rs:910-921 | The next record of the primary's log is never refused and keeps the replica in step. |
| `Replication.ApplyPass` | crates/fluxum-dst/src/repl.rs:262-285 | One pass over the frames brings the replica to their end; a duplicate pass changes nothing. |
| `Replication.Deliver` | crates/fluxum-dst/src/repl.rs:244-291 | Delivery, single or duplicated, brings the replica exactly to the primary's tip. |
| `Replication.Stream` | crates/fluxum-dst/src/repl.rs:144-208 | Under every schedule of commits, dropped and duplicated batches the replica's rows and log are the primary's at the replica's own offset. |
| `Replication.RunSchedule` | crates/fluxum-dst/src/repl.rs:113-239 | The final catch-up makes the two nodes' rows and logs equal, with one entry per commit. |
| `Calendar.DaysAreGregorian` | crates/fluxum-cli/src/backup.rs:316-326 | For every year, negative ones included, and every month: the day formula with truncating division is the Gregorian day count from 1970-01-01 by leap-year rules; a day past its month counts on. |
| `Calendar.CivilIsInverse` | crates/fluxum-bench/src/main.rs:651-661 | Every day number prints as a date of the calendar, namely the one with that day number. |
| `Calendar.DateRoundTrip` | crates/fluxum-bench/src/main.rs:651-661 | Printing the day number of a date gives it back if and only if it is a date of the calendar. |
| `Calendar.EarlierIsSmaller` | crates/fluxum-cli/src/backup.rs:316-326 | Day numbers order dates as the calendar does. |
| `Calendar.YearOfEra` | crates/fluxum-bench/src/main.rs:655-655 | The year formula recovers century, four-year block and year from any day of the 400-year era. |
| `Rfc3339.Scale` | crates/fluxum-cli/src/backup.rs:292-300 | The two scaling loops give the fraction in whole microseconds, rounded down, for any number of digits. |
| `Rfc3339.ParseRfc3339` | crates/fluxum-cli/src/backup.rs:272-329 | The parser as it runs computes the reading that the lemmas below describe. |
| `Rfc3339Stamps.ReadsEveryStamp` | crates/fluxum-cli/src/backup.rs:260-329 | Every date-time in the grammar of section 5.6 of RFC 3339 is read as the microsecond it names, except that a lower-case t is refused (z is read) and so is a fraction that overflows 64 bits. |
| `Rfc3339Stamps.ShortMonthsRunOn` | crates/fluxum-cli/src/backup.rs:283-285 | A day its month does not have is accepted and read as a day of the next month. |
| `Rfc3339Accepts.SeparatorsIgnored` | crates/fluxum-cli/src/backup.rs:274-282 | Whatever stands between hour, minute and second, the reading is the same. |
| `Rfc3339Accepts.LettersForColons` | crates/fluxum-cli/src/backup.rs:274-282 | For one, 2026-07-24T13x37y09Z is read as the time with colons. |
| `Rfc3339Accepts.AcceptedExactly` | crates/fluxum-cli/src/backup.rs:272-329 | An accepted text is a date-time of the grammar if and only if both separators are colons, no field is signed, the time of day is in range and the zone is Z or a sign, two digits, a colon and two digits in range. |
| `Rfc3339Accepts.LooseIsAccepted` | crates/fluxum-cli/src/backup.rs:277-303 | A concrete text with signed fields, hour 99 and no zone is accepted and is no date-time of the grammar. |
| `Chunks.SplitAnywhere` | crates/fluxum-cli/src/logs.rs:83-123 | Decoding a, then its left-over bytes followed by b, is decoding a + b: same left-over, payload and end state. |
| `Chunks.EndIsFinal` | crates/fluxum-cli/src/logs.rs:95-123 | After the end of the stream further bytes are kept and never decoded. |
| `Chunks.SizeLine` | crates/fluxum-cli/src/logs.rs:100-109 | A size line means its hexadecimal number, in any spelling and with any extension of section 7.1.1 of RFC 9112, if and only if the line is UTF-8. |
| `Chunks.DecodesFront` | crates/fluxum-cli/src/logs.rs:95-123 | Of any encoding exactly the chunks before the first whose size line is not UTF-8 are decoded; there, or at the last chunk, the stream ends. |
| `Chunks.DecodesEncoding` | crates/fluxum-cli/src/logs.rs:70-123 | Decoding an encoding of section 7.1 of RFC 9112 of non-empty chunks gives back their data if and only if every size line is UTF-8. |
| `Chunks.StillReading` | crates/fluxum-cli/src/logs.rs:95-123 | Before the last chunk the stream is not over and nothing is left undecoded. |
| `Chunks.ObsTextEndsStream` | crates/fluxum-cli/src/logs.rs:100-104 | Refutes the round trip without that condition: a quoted extension value with the byte 0xff is allowed, and the stream ends there with the chunk lost. |
| `LogLines.LinesConcat` | crates/fluxum-cli/src/logs.rs:127-137 | The lines of a payload do not depend on what arrives after them. |
| `LogLines.ChunkDecoder.DecodeRaw` | crates/fluxum-cli/src/logs.rs:95-123 | The decoding loop drains exactly the complete chunks. |
| `LogLines.ChunkDecoder.Feed` | crates/fluxum-cli/src/logs.rs:83-86 | However the bytes are cut up, the decoder is where it would be with all of them at once. |
| `LogLines.ChunkDecoder.NextLine` | crates/fluxum-cli/src/logs.rs:127-137 | Takes exactly the next non-blank line, or none if there is none. |
| `LogLines.Drive` | crates/fluxum-cli/src/logs.rs:279-300 | Any interleaving of feeding and taking lines: lines taken plus lines left are the lines of the whole payload. |
| `Frames.LeRoundTrip` | crates/fluxum-core/src/commitlog/format.rs:93-112 | Little-endian numbers read back as written. |
| `Frames.EntryRoundTrip` | crates/fluxum-core/src/commitlog/format.rs:93-176 | Every entry within the body limit is scanned back as written, epoch and body; encoding fails exactly above the limit. |
| `Frames.ScanFindsFrame` | crates/fluxum-core/src/commitlog/format.rs:137-176 | An encoded entry is found where it stands, epoch, body and end, whatever surrounds it. |
| `Frames.ScanSeesTear` | crates/fluxum-core/src/commitlog/format.rs:137-162 | A frame cut at any byte is torn (clean when nothing of it is left), never an entry and never corrupt. |
| `Frames.ReadsEntries` | crates/fluxum-core/src/commitlog/format.rs:137-176 | Entries in front of any other bytes, such as a flipped entry, are read unchanged. |
| `Frames.ScanBoundaries` | crates/fluxum-dst/src/sim.rs:587-608 | The simulator's scan loop terminates on any bytes and computes the boundaries by length prefix. |
| `Frames.WholeIsLongest` | crates/fluxum-dst/src/sim.rs:587-608 | The entries wholly inside a cut are the longest prefix that fits. |
| `Frames.TornTail` | crates/fluxum-dst/src/sim.rs:587-608 | For every segment and every cut point, header included, both scans give exactly the entries wholly inside, in order; recovery reports a corrupt header inside the header, a clean end between entries and a torn one otherwise. |
| `Decimals.OneLiftFits` | crates/fluxum-core/src/types.rs:267-278 | The lift of the larger-scale operand always fits, so the double-overflow arm is unreachable. |
| `Decimals.PowFits` | crates/fluxum-core/src/types.rs:287-290 | 10^n fits 128 bits exactly up to n = 38. |
| `Decimals.ComparesValues` | crates/fluxum-core/src/types.rs:259-280 | The bounded comparison is the exact order of the two numbers if and only if it is not a zero against a non-zero number whose scale is at least 39 larger; every such pair is called equal. |
| `Decimals.Antisymmetric` | crates/fluxum-core/src/types.rs:263-280 | Swapping the operands always reverses the answer. |
| `Decimals.Transitive` | crates/fluxum-core/src/types.rs:263-280 | Decimals with scales within 38 of each other are totally preordered. |
| `Decimals.NotTransitive` | crates/fluxum-core/src/types.rs:273-276 | Beyond that they are not: two unequal numbers both equal to zero. Refutes the comment that an overflowing coefficient is never 0. |
| `Droplet.CountRows` | crates/fluxum-bench/src/droplet.rs:243-250 | The two counting loops give, per row, how much more often the reference returned it. |
| `Droplet.DiffRows` | crates/fluxum-bench/src/droplet.rs:243-274 | Missing and unexpected rows are sub-multisets of the two multiset differences, of size min(8, size of the difference). |
| `Droplet.SampleDecides` | crates/fluxum-bench/src/droplet.rs:82-86 | Despite the cap, equal() holds if and only if the two row lists are equal as multisets. |
| `Droplet.PassExact` | crates/fluxum-bench/src/droplet.rs:276-288 | The verdict is a pass if and only if there are users, all their rows match as multisets, and the data is ten times the budget (or of the largest 64-bit size). |

## Left out

- CrdtText.CrdtText.NextSeq: promises a stamp above the ops still shown, not above every op seen, because the code does not keep that; does not model overflow of a 64-bit stamp.
- CrdtText.CrdtText.VersionVector: promises marks over the ops still shown, not over every op applied, because the code does not keep that.
- CrdtText.CrdtText.LocalDelete: does not model wrap-around of `pos + len` at the machine word.
- CrdtText.CrdtText.VisibleIds: the `BTreeMap` iteration order of the source is replaced by any order, since the children are sorted afterwards.
- CrashWorld.World.OpTransaction: takes the engine's record as given; `OpMutations` derives it from the mutations.
- CrashDraws.UnguardedRunFails: the numbers a sensor reading can take are not restricted; the runs it makes write users only.
- TxBuffer.Tx.Write: schema, uniqueness, reference and spatial checks, auto-increment, encryption and triggers are not modelled.
- CommitLog.ReadFramesAfter: the error return on a corrupt entry is not modelled; the log holds whole entries.
- CrashWorld.World.OpPruneAndCompact: segment boundaries are not modelled; compaction may drop any number of leading covered entries.
- CrashWorld.World.OpCrash: a damaged entry or checkpoint is one that fails verification; that checksums detect damage is taken for granted.
- Frames.TornTail: a whole header counts as valid; its own checksum is not modelled.
- Frames.ReadsEntries: says nothing about whether a flipped entry is detected, because the checksum is an arbitrary function.
- Replication.AppliesNext: a record can only be refused for its number; schema errors of the replica store are not modelled.
- CdcDiffs.RecordToDiff: whether a stored row decodes is a flag on the mutation.
- CdcSink.CdcSink.DrainTo: the lag gauge and log output are not modelled; hot-disables, sink replies and store outcomes are inputs.
- Rfc3339Stamps.ReadsEveryStamp: blanks around the argument count as already trimmed.
- Rfc3339.ParseRfc3339: arithmetic overflow and a cut multi-byte character are one outcome, `Aborts`; wrap-around in unchecked builds is not modelled.
- Chunks.SizeLine: what the text before the first semicolon means when it holds characters beyond ASCII is a parameter, since only Unicode blanks around digits could make it a number; no encoding has such a size.
- LogLines.ChunkDecoder.NextLine: how bytes are shown as text (lossy decoding, trimming) is a parameter.
- Droplet.DiffRows: which rows are named when the cap bites depends on key order in the source and is any choice here.
- MessagePack and manifest encodings, real files, fsync, CRC32C and AES: bytes of these formats are not modelled.
- Epoch bumps and fencing, traces, fingerprints and hashes of the simulators.
- Segment naming, retention by archive, point-in-time restore, object-store backup.
- Metrics, sharding arithmetic, networking, error mapping, macros, benchmarks other than the droplet verdict, and command-line plumbing: counters, one-step arithmetic, enum mappings and input/output, with no state of their own to keep consistent.
