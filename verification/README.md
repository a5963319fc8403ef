# Verification of the collaborative text engine

A Dafny model of the text CRDT in `libs/collabtext` and proofs about it: replicas
that exchange edits and undos, the order of the document, the indexes and staged
fast paths beside it, undo histories with budgets, and around these the version
vector, the wire formats, the write-ahead publication of a session and the
membership gate.

`dafny verify dfyconfig.toml` checks everything.

## What is proved

**Replicas converge.** An operation is honest if it was minted as the engine mints
it: own counters above everything observed, the version vector of its author,
links and deletions of items the author had applied, undos of the author's own edits.
`Histories` shows that
minting keeps a history honest and that the version vector is exact;
`Representation` that a set of applied operations determines the document.
`Replicas` is the engine itself, a class whose methods receive, defer, retry, edit,
undo and redo; each ensures a step of the system in `Networks`. Over every run of
that system, with any number of replicas, any order, batching and repetition,
replicas given the same operations show the same document. `Batches` gives the answer
to every operation of a batch: what comes when it is ready is applied whatever the
deferral budget, and nothing well-formed is refused while the budget has room.

**The order is a function of the links.** `FugueOrder` and `FugueLaws` define the
FugueMax traversal and show that a document in link order is determined by its set
of items, and state the sibling order in terms of positions; `SequenceOrder` is the placement walk over runs, and `LocalPlacement`,
`MiddleInsertion` show that minted links put text exactly where it was typed.

**Fast paths refine the flat path.** `VisibleRuns`, `StagedRuns`, `RunPublication`,
`RunRows`, `VisibleEdits` and `FastEdits` are the staged transaction over covered
runs: collected, split into pieces, checked against the predicted order, published
with their index rows. `WholeRuns` are the shortcuts tried before it, for whole runs
and for part of one run. Each does what the staged transaction does, and
`FastEdits.FastIsFlat` compares that with the general path of `LocalOperations`.
`DeletionPacking` gives the number of deletion runs either path emits.

**Indexes stay coherent.** `Indexes` holds the origin and deletion tables, the
delta and the rebuild; every publication leaves exactly the rows of the current
fragments. Run handles are numbers of 64 bits that are never given out twice; each
step takes at most one for each run it publishes, and no step drops a valid index
while there are enough. So the index is valid in every state of every run of
the system until the operations applied could have used all handles
(`Networks.IndexesStayValid`). `DeletionRuns` and `Visibility` show that the indexed
branches do what the scans do.

**Histories.** `UndoHistories` shows that the check before a commit predicts the
commit exactly. `UndoEffects` says what undoing and redoing an edit shows, in terms of
what the edit inserted and deleted: in every state a replica can be in, the groups it
can undo are in force and those it can redo are withdrawn, an undo hides what the edit
inserted and shows what only it deleted, and undone right away an edit gives back the
text. `LocalUndo` and `UndoRuns` follow longer runs. `EditsSince` and `OldViews` show
that the reported edits bring an old view up to date and touch only what changed.

**Formats.** `Utf`, `PositionTokens`, `Json*`, `WireOperations` and `Operation*`
prove that what is written is read back, and state exactly what is refused.
`JsonGrammar` compares the reader with the grammar of RFC 8259 for strings, arrays
and objects; `FrameLimits` and `LongEdits` say which operations fit a frame.
`EngineFrames` and `EnginePositions` connect the formats with the engine: of what a
replica mints, the codec refuses nothing but for its size, and every place of a
replica's document is a valid position.

**Sessions and membership** are step systems with crashes, lost writes and
interleavings, refined by classes that do the same step by step. Beside what every run
keeps, `SessionOutcomes` and `Membership` say what each step achieves and exactly when
the session can be used, or the scope go on, after it.

## Findings

Each of these is proved where it is named.

- Recovering a session that was blocked by membership can leave its next sequence
  behind its own log: reconciliation clears the block before the replay that raises
  the sequence, and when the replay breaks off a later completeness update makes the
  session ready (DocumentSession.cpp:570-626, 896-924). The next edit then stores an
  intent under a used sequence and no later opening succeeds
  (`SessionPublication.StaleSequenceLocksOut`). Runs are safe exactly if each edit is
  made with the next sequence of the log (`SessionPublication.RunIsSafe`).
- A local edit or undo is not held to the limits receivers enforce
  (OperationValidation.h:73-76, OperationValidation.cpp:239-244, 359-370). An edit of
  `n` empty ranges (`EditGroups.EmptyEditIsRefused`) and the undo of an insertion of
  `n` scalars (`EditGroups.LongInsertionAndUndo`) are refused by every receiver
  exactly if `n` is more than 65,536, although the replica itself made them.
  `Replicas.Replica.EditText` and `UndoGroup` say what is accepted in terms of the
  ranges, texts, deletion runs and targets; `LocalEdits.Pack` and
  `VisibleEdits.PackSegments` count the deletion runs.
- Before that, a session must encode what its replica made, and is poisoned if it
  cannot (DocumentSession.cpp:126-131). The frame's limits are not tested before the
  edit either: the undo of an insertion of `n` scalars fits exactly if `n` is at most
  19,997 (`LongEdits.LongUndoIsEncodable`), the insertion itself, of ASCII letters,
  exactly if `n` is at most 4,194,105 (`LongEdits.LongInsertionIsEncodable`).
  `FrameLimits.UndoIsEncodable` and `EditIsEncodable` are the conditions for any
  operation.
- A JSON string's limit is not applied to an escaped surrogate pair, after which the
  next test subtracts below zero and lets everything through
  (JsonReader.cpp:508, 593-622). `JsonLaws.TextKeepsLimit` gives the exact condition,
  `JsonLaws.EveryLimitIsPassed` an input for every limit.
- `{ }` and `[ ]` with white space inside are refused although the grammar allows them
  (sections 2, 4 and 5 of RFC 8259). `JsonGrammar.DocumentOfLayout` shows that within
  the limits this is the only difference: a document the grammar derives is read
  exactly if no empty container holds white space.
- The comment at Buffer.cpp:2792 says that deleted identities are sorted by actor and
  then counter; the order is counter first. Runs of two actors whose counters
  interleave are therefore not joined (`DeletionPacking.InterleavedStayApart`).
- The comment at Buffer.cpp:1377 says that a staged edit packs its deletions exactly as
  the general path does. It packs whole segments, so interleaved identities can make it
  pack fewer runs, never more (`VisibleEdits.StagedIsTighter`); both name the same
  identities.
- The comment at Buffer.cpp:1104 says that a seek to a boundary lands on the run that
  ends there. The seek at SumTree.h:280-313 lands on a run that ends beyond it
  (`VisibleRuns.SeekVisible`), so the walk never starts at a run it has to skip.
- An operation that is offered again while it waits is said to wait for the counter
  before its own (Buffer.cpp:3478-3486), also when that was applied
  (`Delivery.AwaitsApplied`). `Delivery.AwaitedIsSeen` is the exact condition; in all
  other cases what is said to be missing is missing.

## Model

| member | source | states |
|---|---|---|
| Representation.Convergence | libs/collabtext/src/crdt/Buffer.cpp:3151-3328 | over an honest history, two documents that represent one set of applied operations are equal item by item: order, content, deletions and visibility |
| Networks.ReplicasConverge | libs/collabtext/src/crdt/Buffer.cpp:3508-3577 | in every state that any run of local operations and deliveries among any number of replicas reaches, replicas given the same operations have the same document and version, and one given all operations has applied all |
| Networks.RunKeepsSystem | libs/collabtext/src/crdt/Buffer.cpp:3151-3577 | the invariant behind it holds in every state of every run: documents represent the applied operations, versions are exact, nothing waiting could be applied, own operations are applied |
| Networks.DeliveryIsOrderIndependent | libs/collabtext/src/crdt/Buffer.cpp:3508-3577 | two runs of deliveries from the same knowledge, offered the same operations in all, end with the same document and version, whatever the order, batches and repetitions |
| Networks.MintKeeps | libs/collabtext/src/crdt/Buffer.cpp:2508-2516 | a local operation leaves every waiting operation waiting and the replica up to date |
| Networks.OthersStay | libs/collabtext/src/crdt/Buffer.cpp:2508-2516 | another replica's local operation takes nothing from this one |
| Networks.AllGivenAllApplied | libs/collabtext/src/crdt/Buffer.cpp:3518-3557 | a replica that was given everything holds nothing back |
| Networks.IndexesStayValid | libs/collabtext/src/crdt/Buffer.cpp:151-398 | in every state that any run of local operations and deliveries reaches, a replica's index is valid and has exactly the rows of its document, as long as the runs its applied operations could have published leave handles |
| Histories.VersionIsExact | libs/collabtext/src/crdt/Buffer.cpp:3427-3445 | the version vector has observed an operation exactly if the operation was applied |
| Histories.ReadyIsClosed | libs/collabtext/src/crdt/Buffer.cpp:3151-3156 | the version covers an operation's frontier exactly if all it depends on was applied |
| Histories.ApplyKeepsFrontier | libs/collabtext/src/crdt/Buffer.cpp:3303-3320 | applying a ready operation keeps the applied set closed and the version exact |
| Histories.MintKeepsHonest | libs/collabtext/src/crdt/Buffer.cpp:2508-2516 | an operation minted from a replica's own frontier keeps the history honest and the applied set closed |
| Histories.HonestIsAccepted | libs/collabtext/src/crdt/OperationValidation.cpp:227-390 | receivers accept an honest operation exactly if it keeps the limits on ranges, inserted runs, deletion runs and undo targets |
| Delivery.Gate | libs/collabtext/src/crdt/Buffer.cpp:3427-3445 | what the two version tests decide: whether the operation was applied, and whether it is ready |
| Delivery.SettledIsGreatest | libs/collabtext/src/crdt/Buffer.cpp:3518-3557 | once nothing held back is ready, what is applied is the greatest causally closed part of what is held |
| Delivery.GreatestIsUnique | libs/collabtext/src/crdt/Buffer.cpp:3518-3557 | that part is unique |
| Delivery.LaterIsBlocked | libs/collabtext/src/crdt/Buffer.cpp:3525-3545 | an operation behind a waiting one of its own actor is not ready, so skipping it loses nothing |
| Delivery.ApplyReady | libs/collabtext/src/crdt/Buffer.cpp:3368-3378 | a ready operation is applied completely: document, undo counts, version and clock; the index is coherent, and valid while handles are left |
| Delivery.ApplyEdit | libs/collabtext/src/crdt/Buffer.cpp:3151-3328 | a remote edit, by either shortcut or the general path, leaves the document its operations determine; the index has taken no more handles than the runs published, and is valid and coherent while there are any |
| Delivery.ApplyUndo | libs/collabtext/src/crdt/Buffer.cpp:3330-3362 | a remote undo records its counts and shows the document accordingly |
| Delivery.Enqueue | libs/collabtext/src/crdt/Buffer.cpp:3562-3577 | the queue stays in timestamp order and gains just this operation |
| Replicas.Replica.constructor | libs/collabtext/src/crdt/Buffer.cpp:50-62 | a new replica satisfies the invariant of the system |
| Replicas.Replica.ApplyOps | libs/collabtext/src/crdt/Buffer.cpp:3508-3516 | every operation gets the answer of its turn; what comes when it is ready is applied whatever the budget; nothing well-formed is refused that the budget has room for; afterwards the applied set is the greatest causally closed part of everything offered so far, and this is a delivery step of the system |
| Replicas.Replica.ApplyOne | libs/collabtext/src/crdt/Buffer.cpp:3427-3506 | one operation: a known one is a duplicate, one that is ready and not behind its actor's waiting operations is applied whatever the budget, any other is parked or, exactly if the budget is exhausted, refused |
| Batches.InTurnIsPrompt | libs/collabtext/src/crdt/Buffer.cpp:3508-3516 | a batch in causal order, none of it waiting, comes in time as a whole, so all of it is applied whatever the budget |
| Batches.ReadyIsPrompt | libs/collabtext/src/crdt/Buffer.cpp:3508-3516 | what is ready before a batch comes in time wherever it stands in it |
| Delivery.ReadyIsNotBehind | libs/collabtext/src/crdt/Buffer.cpp:3472-3493 | no operation that is ready and does not wait itself is held back behind its actor's waiting ones |
| Delivery.AwaitedIsSeen | libs/collabtext/src/crdt/Buffer.cpp:3478-3486 | the identity an operation is said to wait for has been seen exactly if nothing the operation depends on is missing and it is the one just before |
| Delivery.AwaitsApplied | libs/collabtext/src/crdt/Buffer.cpp:3478-3486 | such a case: offered again behind itself, an operation is said to wait for one that is applied |
| Replicas.Replica.RetryDeferred | libs/collabtext/src/crdt/Buffer.cpp:3518-3557 | terminates, applies or keeps everything, and leaves nothing waiting that is ready |
| Replicas.Replica.RetryPass | libs/collabtext/src/crdt/Buffer.cpp:3525-3553 | a pass with progress shortens the queue; one without shows that nothing waiting is ready |
| Replicas.Replica.TryApply | libs/collabtext/src/crdt/Buffer.cpp:3368-3378 | over an honest history an operation is applied if ready and left alone otherwise, never malformed |
| Replicas.Replica.Defer | libs/collabtext/src/crdt/Buffer.cpp:3380-3411 | parked, or refused exactly when the budget is exhausted |
| Replicas.Replica.EditText | libs/collabtext/src/crdt/Buffer.cpp:2389-2420 | makes the edit exactly if the ranges are valid and the undo budgets have room, and changes nothing otherwise; the text is the edited text, and the operation is a mint step of the system; its group names exactly what it inserted and whether it deleted, what could be redone is retired, from the oldest on as many groups as are too many, and nothing else; others accept the operation exactly if ranges, non-empty texts and deletion runs are each at most 65,536, and the deletion runs are as many as packing gives |
| Replicas.Replica.RoomForEdit | libs/collabtext/src/crdt/Buffer.cpp:1916-1974 | an edit is affordable if it retains no more than the history may and all groups could be pending at once |
| Replicas.UndoGivesTextBack | libs/collabtext/src/crdt/Buffer.cpp:3755-3760 | undoing an edit right after it gives back the text before it |
| Replicas.ValidateEdit | libs/collabtext/src/crdt/OperationValidation.cpp:495-552 | accepts exactly as many texts as ranges, the ranges inside the text, in order and apart |
| Replicas.Replica.UndoGroup | libs/collabtext/src/crdt/Buffer.cpp:3762-3816 | fails exactly if no active group has the identity; otherwise the group moves over the cursor, what its edit inserted is hidden, what only its edit deleted is shown, everything else stays; a mint step of the system, which others accept exactly if the group has at most 65,536 targets |
| Replicas.Replica.RedoGroup | libs/collabtext/src/crdt/Buffer.cpp:3831-3881 | the same for the groups beyond the cursor: what the edit deleted is hidden, what it inserted is shown unless that was deleted |
| Replicas.Replica.Undo | libs/collabtext/src/crdt/Buffer.cpp:3755-3760 | undoes the edit of the latest active group; the stack stays as it is |
| Replicas.Replica.Redo | libs/collabtext/src/crdt/Buffer.cpp:3824-3829 | redoes the edit of the next undone group; the stack stays as it is |
| Replicas.Replica.UndoneStepsBack | libs/collabtext/src/crdt/Buffer.cpp:3755-3760 | an undo of the latest group is a step back of the runs below |
| Replicas.Replica.RedoneStepsForth | libs/collabtext/src/crdt/Buffer.cpp:3824-3829 | a redo of the next group is a step forth |
| Replicas.Replica.TurnShowsCounts | libs/collabtext/src/crdt/Buffer.cpp:3755-3881 | a replica's document shows what its undo counts say |
| UndoRuns.UndosAndRedosRestore | libs/collabtext/src/crdt/Buffer.cpp:3755-3881 | `k` undos and `k` redos restore stack and cursor, raise each target's count by two for each group that names it, and give back the same document |
| LocalUndo.EmitUndo | libs/collabtext/src/crdt/Buffer.cpp:3780-3815 | every inserted item and every deletion of the group goes up by one and nothing else; the operation may be minted, and is accepted by others exactly if the targets keep the part limit |
| LocalUndo.CountUp | libs/collabtext/src/crdt/Buffer.cpp:3789-3805 | every target's count goes up by one, and no other count changes |
| LocalUndo.UndoRedoCancels | libs/collabtext/src/crdt/Buffer.cpp:3755-3881 | undoing groups and redoing them in reverse adds two to each count per group naming it and shows the document as before |
| UndoEffects.GroupRecords | libs/collabtext/src/crdt/Buffer.cpp:2782-2786 | the group of an edit names exactly the items the edit inserts, each once, and the edit as a deletion exactly if it deletes |
| UndoEffects.UndoReverts | libs/collabtext/src/crdt/Buffer.cpp:3780-3815 | undoing an edit in force hides what it inserted, shows what only it deleted, and leaves all other items |
| UndoEffects.RedoReinstates | libs/collabtext/src/crdt/Buffer.cpp:3845-3880 | redoing a withdrawn edit hides what it deleted, shows what it inserted unless deleted, and leaves all other items |
| UndoEffects.EditThenUndo | libs/collabtext/src/crdt/Buffer.cpp:3755-3816 | for any ranges and texts, reverting an edit at once restores the text |
| UndoEffects.NewIsInForce | libs/collabtext/src/crdt/Buffer.cpp:2782-2786 | a new edit is in force: nothing it is counted by was counted before |
| UndoEffects.OthersCountOthers | libs/collabtext/src/crdt/Buffer.cpp:3330-3362 | operations of others change no count of this replica's own edits |
| UndoEffects.UndoneGroup | libs/collabtext/src/crdt/Buffer.cpp:3762-3816 | an undo keeps that all groups below the cursor are in force and all from it on withdrawn |
| UndoEffects.RedoneGroup | libs/collabtext/src/crdt/Buffer.cpp:3831-3881 | and so does a redo |
| EditGroups.GroupSizes | libs/collabtext/src/crdt/Buffer.cpp:2471-2500 | the group an edit commits has exactly the sizes the budget check was given |
| EditGroups.RetainedIs | libs/collabtext/src/crdt/Buffer.cpp:2471-2500 | an edit retains the bytes it takes out and puts in, an identity for each scalar put in and one for taking out |
| EditGroups.BytesConserved | libs/collabtext/src/crdt/Buffer.cpp:2471-2500 | bytes of the text before and of what is put in are those of the text after and of what is taken out |
| EditGroups.LongInsertionAndUndo | libs/collabtext/src/crdt/OperationValidation.cpp:359-370 | validation accepts the insertion of `n` scalars always, and its undo exactly if `n` is at most 65,536 |
| EditGroups.EmptyEditIsRefused | libs/collabtext/src/crdt/OperationValidation.cpp:239-244 | an edit of `n` empty ranges inserts and removes nothing, and is accepted exactly if `n` is at most 65,536 |
| EditGroups.InsertedRuns | libs/collabtext/src/crdt/Buffer.cpp:2700-2738 | an edit's operation has one inserted run for each text that is not empty |
| LocalOperations.EditIsBounded | libs/collabtext/src/crdt/Buffer.cpp:2740-2806 | no more deletion runs than scalars taken out |
| LocalEdits.ChosenCount | libs/collabtext/src/crdt/Buffer.cpp:2740-2760 | ranges choose exactly as many items as they take out scalars |
| FugueLaws.SameNodesSameOrder | libs/collabtext/src/crdt/SequenceOrder.cpp:181-268 | two documents in link order over one set of nodes are the same sequence |
| FugueLaws.SiblingLaw | libs/collabtext/src/crdt/SequenceOrder.cpp:192-231 | of two children of one parent: a left one comes first; left ones go by identity; of right ones the one with the later right origin comes first, then identity decides |
| FugueLaws.ParentLaw | libs/collabtext/src/crdt/SequenceOrder.cpp:181-231 | left children come before their parent, right ones after it |
| FugueLaws.IntegrateCommutes | libs/collabtext/src/crdt/SequenceOrder.cpp:170-245 | two insertions neither of which hangs off the other commute |
| FugueLaws.MintedLinkIsExact | libs/collabtext/src/crdt/SequenceOrder.cpp:150-167 | an element with a minted link belongs exactly at the requested place, whatever its identity |
| FugueLaws.SubtreeContiguous | libs/collabtext/src/crdt/SequenceOrder.cpp:181-205 | what lies between two members of a subtree is a member |
| FugueLaws.SpliceRun | libs/collabtext/src/crdt/SequenceOrder.cpp:236-245 | a whole run goes where its first item belongs |
| FugueLaws.MintThenIntegrate | libs/collabtext/src/crdt/SequenceOrder.cpp:150-245 | integrating an element with a minted link inserts it at the requested place |
| FugueLaws.OnlyInsidersSplit | libs/collabtext/src/crdt/SequenceOrder.cpp:236-243 | a run is only ever split by an item that hangs off its inside |
| SequenceOrder.Integrate | libs/collabtext/src/crdt/SequenceOrder.cpp:170-245 | the run goes to the one place its link determines, cutting a run if need be; fails exactly when the link names an absent item |
| SequenceOrder.MintLink | libs/collabtext/src/crdt/SequenceOrder.cpp:150-167 | the link that puts a new element right after a given one |
| SequenceOrder.TopChildPos | libs/collabtext/src/crdt/SequenceOrder.cpp:83-99 | the ancestor that is a child of the given item, or nothing exactly if there is none; the climb limit never cuts it short |
| SequenceOrder.SkipSubtree | libs/collabtext/src/crdt/SequenceOrder.cpp:106-113 | the first position past a subtree |
| SequenceOrder.FindItem | libs/collabtext/src/crdt/SequenceOrder.cpp:47-62 | the run and offset of an identity, exactly if it is there |
| Fragments.SplitKeepsItems | libs/collabtext/src/crdt/Fragment.h:246-295 | a cut leaves the same items |
| RemoteEdits.PlaceEdit | libs/collabtext/src/crdt/Buffer.cpp:3246-3326 | the general path: marks, places and publishes exactly the items, deletions and visibility the operation stands for |
| RemoteEdits.TryAppend | libs/collabtext/src/crdt/Buffer.cpp:330-398 | the append shortcut gives the document the general path gives, with a coherent index and one handle taken |
| RemoteEdits.TryDeleteRun | libs/collabtext/src/crdt/Buffer.cpp:3184-3242 | the shortcut for one whole run marks what the general path marks |
| RemoteEdits.Publish | libs/collabtext/src/crdt/Buffer.cpp:151-328 | publishing brings visibility up to date and leaves a valid index |
| RemoteEdits.RepresentedIsIndexable | libs/collabtext/src/crdt/Buffer.cpp:151-328 | what an honest history makes of a document can always be indexed: disjoint runs, usable identities, no deletion twice |
| DeletionRuns.ApplyDeletionRuns | libs/collabtext/src/crdt/Buffer.cpp:3034-3149 | both branches mark exactly the items the deletion runs reach, each run stopping at its first missing identity |
| DeletionRuns.IndexedDeletions | libs/collabtext/src/crdt/Buffer.cpp:3076-3149 | the indexed branch: intervals resolved, sorted, merged and edited from right to left |
| DeletionRuns.ScanDeletions | libs/collabtext/src/crdt/Buffer.cpp:3039-3075 | the scan branch |
| DeletionRuns.MergeTargets | libs/collabtext/src/crdt/Buffer.cpp:3114-3128 | merged targets cover the same items and no longer touch |
| Indexes.SetFragments | libs/collabtext/src/crdt/Buffer.cpp:151-328 | by delta or by rebuild, an index published as valid has exactly the rows of the fragments, and it is valid whenever a rebuild would accept them and handles are left |
| Indexes.Delta | libs/collabtext/src/crdt/Buffer.cpp:203-280 | the delta turns the rows of the old fragments into those of the new ones |
| Indexes.AssignRuns | libs/collabtext/src/crdt/Buffer.cpp:172-193 | kept run starts keep their handles, and no handle is given twice |
| Indexes.CoherentIsUnique | libs/collabtext/src/crdt/Buffer.cpp:151-328 | two coherent indexes of the same fragments differ in the names of runs only |
| Indexes.AppendRow | libs/collabtext/src/crdt/Buffer.cpp:330-398 | the rows of an appended run |
| Indexes.Overlapping | libs/collabtext/src/crdt/Buffer.cpp:3089-3100 | all rows of an actor that overlap an interval |
| Indexes.RetainedRank | libs/collabtext/src/crdt/Buffer.cpp:129-149 | the rank of a run, checked against its row |
| Visibility.ComputeVisible | libs/collabtext/src/crdt/Fragment.h:304-312 | a run is visible exactly if its insertion is not undone and all of its deletions are |
| Visibility.RecomputeFor | libs/collabtext/src/crdt/Buffer.cpp:1521-1606 | recomputing only the runs the targets touch gives what recomputing all gives |
| Visibility.AffectedRuns | libs/collabtext/src/crdt/Buffer.cpp:1530-1580 | the handles found, by intervals of consecutive targets or one by one, are of all runs a target touches |
| Visibility.IntervalTouched | libs/collabtext/src/crdt/Buffer.cpp:1546-1560 | whether runs cover an interval, and which |
| Visibility.RunsAreUniform | libs/collabtext/src/crdt/Fragment.h:304-312 | all items of a run are visible together, so judging a run by its first identity is exact |
| LocalEdits.VisibleElementBefore | libs/collabtext/src/crdt/Buffer.cpp:458-470 | the visible scalar that ends at an offset |
| LocalEdits.TombstoneRanges | libs/collabtext/src/crdt/Buffer.cpp:2740-2760 | hides exactly the visible scalars of the ranges and reports their identities |
| LocalEdits.Pack | libs/collabtext/src/crdt/Buffer.cpp:2785-2806 | the packed runs name exactly the identities; there is one for each identity that does not continue the one before it in order |
| DeletionPacking.BreaksAreHeads | libs/collabtext/src/crdt/Buffer.cpp:2785-2806 | how many runs there are depends on the set of pieces only |
| DeletionPacking.PiecesPackTighter | libs/collabtext/src/crdt/Buffer.cpp:1377-1404 | packing pieces of runs gives at most as many runs as packing their identities one by one |
| DeletionPacking.InterleavedStayApart | libs/collabtext/src/crdt/Buffer.cpp:2785-2806 | with the counters of two actors interleaved, one by one gives three runs where pieces, and the order the comment names, give two |
| LocalOperations.EditLocally | libs/collabtext/src/crdt/Buffer.cpp:2683-2807 | the general path: the document is the one its operation makes anywhere, the operation may be minted, and the text is the edited text |
| LocalOperations.MintInserts | libs/collabtext/src/crdt/Buffer.cpp:2693-2738 | the runs take consecutive counters and sit at the places of their ranges in the old document |
| LocalOperations.PlaceInserts | libs/collabtext/src/crdt/Buffer.cpp:2762-2768 | each minted run goes to its own place, also when several share one |
| LocalPlacement.PlacedStep | libs/collabtext/src/crdt/Buffer.cpp:2762-2768 | placing one run leaves the places of the later ones |
| VisibleText.WovenText | libs/collabtext/src/crdt/Buffer.cpp:2683-2768 | hiding the ranges and weaving in the runs edits the visible text |
| FastEdits.EditVisible | libs/collabtext/src/crdt/Buffer.cpp:2446-2681 | whichever path an edit takes, the promise is that of the general path |
| FastEdits.FastIsFlat | libs/collabtext/src/crdt/Buffer.cpp:1083-1519 | two ways to make the same edit of one range give the same document and operations that insert the same run and delete the same identities |
| FastEdits.DeleteVisible | libs/collabtext/src/crdt/Buffer.cpp:1493-1519 | the staged deletion of a visible range |
| FastEdits.ReplaceVisible | libs/collabtext/src/crdt/Buffer.cpp:1431-1491 | the staged replacement of a visible range |
| WholeRuns.InsertAtRank | libs/collabtext/src/crdt/Buffer.cpp:530-584 | a run published at a rank, with a coherent index and one handle taken |
| WholeRuns.CollectWhole | libs/collabtext/src/crdt/Buffer.cpp:586-628 | the covered runs, exactly if each of them is covered completely |
| WholeRuns.PublishWhole | libs/collabtext/src/crdt/Buffer.cpp:630-692 | whole runs tombstoned in place are what staging them gives, with a coherent index, and no handle is taken |
| WholeRuns.ReplaceWhole | libs/collabtext/src/crdt/Buffer.cpp:695-817 | one whole run gives way to a new one as in the staged transaction |
| WholeRuns.ReplacePart | libs/collabtext/src/crdt/Buffer.cpp:819-1080 | part of one run gives way to a new one as in the staged transaction |
| FastEdits.InsertVisible | libs/collabtext/src/crdt/Buffer.cpp:2446-2574 | the append and the insertion at a boundary between runs |
| MiddleInsertion.SimpleMiddleInsertion | libs/collabtext/src/crdt/Buffer.cpp:472-528 | a link and rank at which the new run belongs exactly; there is one exactly if the index is valid, text follows and the place is at a boundary between runs |
| MiddleInsertion.SlotIsExact | libs/collabtext/src/crdt/Buffer.cpp:472-528 | at that rank every earlier item comes before the new run and every later one after it, without any tie between siblings |
| MiddleInsertion.IsDescendant | libs/collabtext/src/crdt/Buffer.cpp:427-456 | exact between neighbours in spite of the step cap, and never a wrong yes |
| VisibleRuns.CollectCovered | libs/collabtext/src/crdt/Buffer.cpp:1082-1133 | the covered runs of a range, and no range of the text is refused |
| VisibleRuns.SeekVisible | libs/collabtext/src/crdt/SumTree.h:280-313 | the run that shows the scalar at an offset |
| RunPublication.StagePieces | libs/collabtext/src/crdt/Buffer.cpp:1221-1260 | every covered run gives way to its pieces |
| RunPublication.CheckOrder | libs/collabtext/src/crdt/Buffer.cpp:1265-1316 | the last check finds the staged runs in the order the ranks predict |
| RunPublication.OrderHolds | libs/collabtext/src/crdt/Buffer.cpp:1265-1316 | the staged runs, with the new one, stand in the predicted order |
| RunRows.ExchangeRows | libs/collabtext/src/crdt/Buffer.cpp:1318-1357 | the rows of the covered runs are exchanged for those of the pieces and the new run |
| VisibleEdits.VerifyOrder | libs/collabtext/src/crdt/Buffer.cpp:1265-1316 | the staged-order check always passes |
| VisibleEdits.PublishRuns | libs/collabtext/src/crdt/Buffer.cpp:1135-1429 | stages, checks and publishes in one step, or leaves everything as it was |
| VisibleEdits.PackSegments | libs/collabtext/src/crdt/Buffer.cpp:1377-1404 | the packed descriptors name exactly the segments' identities, one for each segment that does not continue the one before it |
| VisibleEdits.StagedIsTighter | libs/collabtext/src/crdt/Buffer.cpp:1377-1404 | a staged edit has at most as many deletion runs as the general path |
| VisibleEdits.SegmentsAreChosen | libs/collabtext/src/crdt/Buffer.cpp:1377-1404 | the segments name exactly the scalars of the range |
| EditsSince.ListEdits | libs/collabtext/src/crdt/Buffer.cpp:2108-2168 | the edits are not empty, in order, apart and in range, and lead from the old text to the new one; they replace only items that have gone, and only by items that have come, so everything outside is there then and now; without silent markers, changes with nothing kept between them are one edit |
| EditsSince.ApplyEdits | libs/collabtext/src/CollabDocument.cpp:102-110 | applying such edits from the last to the first gives the new text |
| EditsSince.WasUndone | libs/collabtext/src/crdt/UndoMap.cpp:42-59 | whether a version saw an identity undone |
| OldViews.UpdateView | libs/collabtext/src/crdt/Buffer.cpp:2108-2168 | for a version some replica was at, the edits bring the text that replica showed up to date |
| OldViews.OldTextIsText | libs/collabtext/src/crdt/Buffer.cpp:2108-2168 | the text the walk starts from is the text the earlier replica showed |
| OldViews.KeepValid | libs/collabtext/src/crdt/Buffer.cpp:2108-2168 | leaving out what a version has not observed leaves a document in link order |
| UndoHistories.UndoHistory.CheckNewEntry | libs/collabtext/src/crdt/Buffer.cpp:1916-1974 | accepts exactly the entries whose commit keeps every limit |
| UndoHistories.UndoHistory.Commit | libs/collabtext/src/crdt/Buffer.cpp:2865-2877 | after an accepted check: both byte counters are the sums over their groups, every limit is kept, nothing is lost, the new group is on top |
| UndoHistories.UndoHistory.Trim | libs/collabtext/src/crdt/Buffer.cpp:1852-1863 | retires from the oldest on, as many as needed and no more |
| UndoHistories.UndoHistory.CheckLimits | libs/collabtext/src/crdt/Buffer.cpp:1882-1914 | accepts exactly the limits that can be imposed |
| UndoHistories.RoomyFits | libs/collabtext/src/crdt/Buffer.cpp:1882-1914 | any commit fits if every group could be pending at once |
| UndoHistories.PendingIsSmall | libs/collabtext/src/crdt/Buffer.cpp:1865-1880 | what is pending keeps 104 bytes a group and 24 an identity within 8 MiB, and 100,000 groups |
| UndoHistories.UndoHistory.SetMaxDepth | libs/collabtext/src/crdt/Buffer.cpp:1833-1842 | the depth changes exactly if the retirements fit |
| UndoHistories.UndoHistory.SetMaxBytes | libs/collabtext/src/crdt/Buffer.cpp:1844-1850 | the byte limit changes exactly if the retirements fit |
| UndoHistories.UndoHistory.CoalesceLast | libs/collabtext/src/crdt/Buffer.cpp:3583-3606 | joins the latest two groups; their bytes add up and nothing else changes |
| UndoHistories.UndoHistory.UndoOf | libs/collabtext/src/crdt/Buffer.cpp:3762-3787 | moves the named group to just past the cursor |
| UndoHistories.UndoHistory.RedoOf | libs/collabtext/src/crdt/Buffer.cpp:3831-3850 | moves the named group to just before the cursor |
| UndoHistories.UndoHistory.Acknowledge | libs/collabtext/src/crdt/Buffer.cpp:3640-3661 | all named retirements are forgotten, or none if one is unknown or named twice |
| UndoHistories.UndoingKeeps | libs/collabtext/src/crdt/Buffer.cpp:3762-3787 | an undo permutes the groups, conserves their bytes and keeps the order of all others on either side |
| UndoHistories.RedoingKeeps | libs/collabtext/src/crdt/Buffer.cpp:3831-3850 | the same for a redo |
| UndoHistories.UndosThenRedos | libs/collabtext/src/crdt/Buffer.cpp:3755-3881 | `k` undos and `k` redos restore stack and cursor |
| UndoHistories.ExcessIsLeast | libs/collabtext/src/crdt/Buffer.cpp:1852-1863 | with one group fewer retired the limits would be broken |
| LocalUndo.UndoCountOf | libs/collabtext/src/crdt/UndoMap.cpp:21-36 | the largest count recorded for an identity |
| Clock.Global.FindIndex | libs/collabtext/src/crdt/Clock.cpp:100-114 | the index of an actor, or the place it would go |
| Clock.Global.ObserveId | libs/collabtext/src/crdt/Clock.cpp:121-139 | the vector is the old one raised by the identity, and the array stays strictly sorted without zeros |
| Clock.Global.JoinWith | libs/collabtext/src/crdt/Clock.cpp:155-161 | the pointwise maximum |
| Clock.Global.CoverageIntersection | libs/collabtext/src/crdt/Clock.cpp:179-216 | the pointwise minimum, absence being zero |
| Clock.Global.ObservedAll | libs/collabtext/src/crdt/Clock.cpp:145-153 | whether the other vector is below this one |
| Clock.Global.Equals | libs/collabtext/src/crdt/Clock.cpp:218-226 | array equality is equality at every actor |
| Clock.Global.GetCounter | libs/collabtext/src/crdt/Clock.cpp:116-119 | the actor's counter, zero when absent |
| Clock.CanonicalIsUnique | libs/collabtext/src/crdt/Clock.cpp:218-226 | one vector has one canonical array |
| VersionVectors.JoinIsLeastUpperBound | libs/collabtext/src/crdt/Clock.cpp:155-161 | the join is the least upper bound |
| VersionVectors.MeetIsGreatestLowerBound | libs/collabtext/src/crdt/Clock.cpp:179-216 | the intersection is the greatest lower bound |
| VersionVectors.Absorption | libs/collabtext/src/crdt/Clock.cpp:155-216 | join and intersection absorb each other |
| SessionPublication.RunKeeps | libs/collabtext/src/DocumentSession.cpp:120-178 | the storage is consistent in every state of a run whose edits are up to date, with crashes anywhere: intents are in the log once, in order from 1, and a pending one is never overwritten |
| SessionPublication.RunIsSafe | libs/collabtext/src/DocumentSession.cpp:120-178 | a run is safe at each step, however that step's writes end, exactly if each edit is made with the next sequence of the log |
| SessionPublication.PublishIsSafe | libs/collabtext/src/DocumentSession.cpp:120-178 | the same for one edit |
| SessionPublication.CarefulIsUpToDate | libs/collabtext/src/DocumentSession.cpp:896-930 | unless the replay of a blocked session's recovery breaks off, every edit is up to date |
| SessionPublication.ReopenCompletes | libs/collabtext/src/DocumentSession.cpp:713-830 | an authorized opening that gets through leaves every stored intent in the log exactly once under its own sequence, its history saved, and nothing pending |
| SessionPublication.StaleSequenceLocksOut | libs/collabtext/src/DocumentSession.cpp:896-930 | a run after which no opening succeeds |
| SessionPublication.LogIsAppendOnly | libs/collabtext/src/DocumentSession.cpp:120-168 | what is in the log stays |
| SessionOutcomes.PublishCompletes | libs/collabtext/src/DocumentSession.cpp:120-172 | with the log's next sequence, a publication whose writes succeed extends the log by just its payload, saves the history, leaves nothing pending and changes the session's next sequence only; the session can be used afterwards exactly if all four writes succeed |
| SessionOutcomes.PublishRefuses | libs/collabtext/src/DocumentSession.cpp:120-131 | an edit that cannot be encoded, or has no sequence left, poisons the session and stores nothing |
| SessionOutcomes.ReconcileCompletes | libs/collabtext/src/DocumentSession.cpp:570-615 | reconciliation gets through unless it has to write and a write fails |
| SessionOutcomes.OpenIsReady | libs/collabtext/src/DocumentSession.cpp:713-830 | an opened session knows the log's next sequence, and can be used exactly if nothing is pending and nothing missing |
| SessionOutcomes.RecoverIsReady | libs/collabtext/src/DocumentSession.cpp:896-930 | the same for a recovery that gets through, unless the session is poisoned |
| SessionOutcomes.RecoveryBreaksOff | libs/collabtext/src/DocumentSession.cpp:896-930 | a recovery that breaks off has raised the next sequence as far as it has seen |
| SessionOutcomes.CheckpointSaves | libs/collabtext/src/DocumentSession.cpp:1000-1030 | saving the history changes nothing else; the session can be used afterwards exactly if the write succeeds |
| SessionOutcomes.PollIsReady | libs/collabtext/src/DocumentSession.cpp:617-626 | a poll makes a session usable exactly if nothing is missing, poisoned or blocked |
| SessionPublication.DocumentSession.PublishLocal | libs/collabtext/src/DocumentSession.cpp:120-168 | does to session and storage what the publication step says |
| SessionPublication.DocumentSession.ReconcilePending | libs/collabtext/src/DocumentSession.cpp:570-615 | does what the reconciliation step says |
| SessionPublication.DocumentSession.OpenSession | libs/collabtext/src/DocumentSession.cpp:713-830 | does what the opening step says |
| SessionPublication.DocumentSession.RecoverSession | libs/collabtext/src/DocumentSession.cpp:896-930 | does what the recovery step says |
| SessionPublication.DocumentSession.UpdateCompleteness | libs/collabtext/src/DocumentSession.cpp:617-626 | completeness, unless deferred, rejected, poisoned or blocked |
| SessionPublication.DocumentSession.ReplayOwn | libs/collabtext/src/DocumentSession.cpp:641-647 | own deliveries raise the next sequence |
| Membership.RunKeeps | libs/collabtext/src/MembershipCoordinator.cpp:100-118 | in every interleaving, leases are of the current epoch of open scopes, and the uncertain scopes are exactly those of the pending batch |
| Membership.EpochsRiseTogether | libs/collabtext/src/MembershipCoordinator.cpp:213-233 | epochs change only by a durable commit, by one, for the whole batch, while no lease is held |
| Membership.OnlyExactRetry | libs/collabtext/src/MembershipCoordinator.cpp:183-197 | with an uncertain batch pending, nothing else changes a scope or leases one of its scopes |
| Membership.RetryGoesThrough | libs/collabtext/src/MembershipCoordinator.cpp:183-233 | the exact retry goes through once the leases are back |
| Membership.LeaseHoldsEpoch | libs/collabtext/src/MembershipCoordinator.cpp:31-36 | a scope stays in its epoch while a lease on it is held |
| Membership.LeasesAreMembers | libs/collabtext/src/MembershipCoordinator.cpp:100-118 | after any run, whoever holds a lease is a member of its open scope in the lease's epoch |
| Membership.AcquireIsExact | libs/collabtext/src/MembershipCoordinator.cpp:100-118 | a lease is given exactly to a member of an open scope in its current epoch |
| Membership.LeasesDrain | libs/collabtext/src/MembershipCoordinator.cpp:31-36 | giving back the leases that are held leaves none and changes nothing else |
| Membership.CommitIsExact | libs/collabtext/src/MembershipCoordinator.cpp:199-233 | a batch that continues the epochs does what the outcome of its durable write says |
| Membership.OneScopeGoesOn | libs/collabtext/src/MembershipCoordinator.cpp:143-233 | a scope with nothing in the way can always go on to its next epoch with new members |
| Membership.MembershipCoordinator.AuthorizeLocalMutation | libs/collabtext/src/MembershipCoordinator.cpp:100-118 | a lease exactly for enrolled producers in the current epoch of a certain scope |
| Membership.MembershipCoordinator.CommitTransitions | libs/collabtext/src/MembershipCoordinator.cpp:143-234 | refuses exactly malformed, repeating, mismatching or inexact batches; otherwise does what the commit step says for the outcome of the durable write |
| Membership.ValidateMembers | libs/collabtext/src/MembershipCoordinator.cpp:38-50 | accepts exactly 1 to 4096 valid, distinct actors |
| Utf.DecodeScalar | libs/collabtext/src/codec/Utf.cpp:53-84 | accepts exactly what the encoder writes (sections 3 and 4 of RFC 3629), and names the reason otherwise |
| Utf.AppendScalar | libs/collabtext/src/codec/Utf.cpp:160-180 | writes the encoding of a scalar value and refuses everything else |
| Utf.EncodedIsShortest | libs/collabtext/src/codec/Utf.cpp:160-180 | the encoding is the shortest spelling |
| Utf.Utf8ToUtf16 | libs/collabtext/src/codec/Utf.cpp:182-205 | succeeds exactly on UTF-8, with the UTF-16 of the same scalars |
| Utf.Utf16ToUtf8 | libs/collabtext/src/codec/Utf.cpp:207-231 | succeeds exactly on paired UTF-16, with the UTF-8 of the same scalars |
| Utf.ConvertersAreInverse | libs/collabtext/src/codec/Utf.cpp:182-231 | each conversion undoes the other |
| Utf.Utf16CodeUnitCount | libs/collabtext/src/codec/Utf.cpp:145-158 | the length of what the conversion produces |
| Utf.Utf8Length | libs/collabtext/src/codec/Utf.cpp:130-143 | the number of scalars |
| Utf.ValidateUtf8 | libs/collabtext/src/codec/Utf.cpp:114-124 | accepts exactly the encodings of scalar sequences |
| PositionTokens.EncodePosition | libs/collabtext/src/codec/AnchorCodec.cpp:65-84 | refuses exactly invalid positions |
| PositionTokens.DecodePosition | libs/collabtext/src/codec/AnchorCodec.cpp:110-158 | finds what the bytes mean, and only bytes that encode it |
| PositionTokens.TokenOfFrame | libs/collabtext/src/codec/AnchorCodec.cpp:110-158 | decoding an encoded position gives it back |
| PositionTokens.FrameOfToken | libs/collabtext/src/codec/AnchorCodec.cpp:110-158 | bytes that decode are the encoding of what they decode to |
| PositionTokens.TokensAreUnique | libs/collabtext/src/codec/AnchorCodec.cpp:65-158 | two tokens are the same bytes exactly if they are the same position |
| PositionTokens.FrameIsSmall | libs/collabtext/src/codec/AnchorCodec.cpp:65-84 | valid frames stay far below the size limit |
| PositionTokens.FrontierIsObserved | libs/collabtext/src/codec/AnchorCodec.cpp:128-146 | the frontier read is the array of the vector that observed its pairs |
| EnginePositions.BoundaryIsValid | libs/collabtext/src/codec/AnchorCodec.cpp:65-84 | every place of a replica's document, with the replica's frontier, is a valid position |
| EnginePositions.AttachmentIsValid | libs/collabtext/src/codec/AnchorCodec.cpp:65-84 | an attachment to one side of a place is valid exactly if there is an item on that side |
| EnginePositions.MarkerIsValid | libs/collabtext/src/codec/AnchorCodec.cpp:65-84 | a position at an item is valid exactly without an affinity of its own |
| WireOperations.EditAllocation | libs/collabtext/src/codec/OperationCodec.cpp:251-277 | accepts exactly the edits whose runs tile their reserved interval above the prior frontier; no step leaves 64 bits |
| WireOperations.RunsAreDisjoint | libs/collabtext/src/codec/OperationCodec.cpp:251-277 | each reserved counter belongs to exactly one run, and none was observed before |
| WireOperations.SweepIntervals | libs/collabtext/src/codec/OperationCodec.cpp:262-275 | sort and sweep accept exactly the intervals that tile |
| WireOperations.ValidateEdit | libs/collabtext/src/crdt/OperationValidation.cpp:227-357 | accepts exactly the edits within the limits whose parts are well-formed |
| EngineFrames.EditFitsAccepted | libs/collabtext/src/crdt/OperationValidation.cpp:227-357 | the codec accepts the wire form of an edit exactly if receivers accept the edit, apart from hints and the width of counters |
| EngineFrames.EditIsInOrder | libs/collabtext/src/crdt/OperationValidation.cpp:227-357 | in an honest history the codec refuses an edit only for its number of parts and its sizes: links, runs, deletions and tiling are never at fault |
| EngineFrames.UndoIsInOrder | libs/collabtext/src/crdt/OperationValidation.cpp:359-390 | the same for undos |
| EngineFrames.HintsOfEdit | libs/collabtext/src/crdt/OperationValidation.cpp:258-276 | the ranges and texts of a valid edit of a text are never at fault |
| EngineFrames.MarkerEdits | libs/collabtext/src/crdt/OperationValidation.cpp:227-237 | a marker edit is accepted in just two shapes: one marker inserted, or one item deleted |
| EngineFrames.FormCarries | libs/collabtext/src/codec/OperationCodec.cpp:326-363 | every operation within the widths of the format has a wire form that carries it |
| EngineFrames.EditTravels | libs/collabtext/src/codec/OperationCodec.cpp:326-406 | so an honest edit is encoded exactly if it keeps the limits of receivers, codec and frame, and what is sent means it |
| EngineFrames.UndoTravels | libs/collabtext/src/codec/OperationCodec.cpp:326-406 | the same for undos and redos |
| OperationCodec.EncodeOperation | libs/collabtext/src/codec/OperationCodec.cpp:326-363 | refuses exactly what is not encodable, and what it writes means the operation |
| OperationDecoder.DecodeOperation | libs/collabtext/src/codec/OperationCodec.cpp:364-406 | finds what the bytes mean |
| OperationCodec.ReadFrame | libs/collabtext/src/codec/OperationCodec.cpp:36-58 | the header, one JSON object, and nothing after it |
| OperationLaws.MeaningOfFrame | libs/collabtext/src/codec/OperationCodec.cpp:326-406 | decoding an encoded edit, marker edit or undo gives it back, for every operation the encoder accepts |
| OperationLaws.FramesAreUnique | libs/collabtext/src/codec/OperationCodec.cpp:326-363 | two operations with one frame are one |
| OperationLaws.MeaningIsSound | libs/collabtext/src/codec/OperationCodec.cpp:364-406 | whatever bytes it came from, an accepted edit tiles its interval and an accepted frontier is a version vector's array |
| OperationLaws.FrontierIsCanonical | libs/collabtext/src/codec/OperationCodec.cpp:200-213 | a frontier's members may come in any order |
| OperationLaws.RootOfFrame | libs/collabtext/src/codec/OperationCodec.cpp:132-140 | a frame is read back exactly if its members keep the reader's limits |
| JsonReaders.ParseSyntax | libs/collabtext/src/codec/JsonReader.cpp:256-326 | reads exactly the documents the grammar and limits allow, to the end |
| JsonReaders.JsonReader.ReadValue | libs/collabtext/src/codec/JsonReader.cpp:327-378 | one value, by depth and element budget |
| JsonReaders.JsonReader.ReadObject | libs/collabtext/src/codec/JsonReader.cpp:380-447 | the members of an object, keys distinct |
| JsonReaders.JsonReader.ReadArray | libs/collabtext/src/codec/JsonReader.cpp:449-494 | the elements of an array |
| JsonReaders.JsonReader.ReadText | libs/collabtext/src/codec/JsonReader.cpp:496-653 | a string, its escapes resolved (section 7 of RFC 8259) and its limit applied as the code applies it |
| JsonLaws.DocumentOfPrint | libs/collabtext/src/codec/JsonReader.cpp:256-494 | reading a written document gives its value back exactly if it keeps the limits |
| JsonLaws.ParsePrint | libs/collabtext/src/codec/JsonReader.cpp:327-494 | the same for a value inside a document, with rest and budget |
| JsonLaws.UnescapeEscaped | libs/collabtext/src/codec/JsonReader.cpp:496-653 | quoting is undone; the limit is on the text, not on its spelling |
| JsonLaws.PrintIsInjective | libs/collabtext/src/codec/JsonReader.cpp:256-494 | writing is one to one on what the reader accepts |
| JsonLaws.TextKeepsLimit | libs/collabtext/src/codec/JsonReader.cpp:593-627 | a text stays within its limit exactly if every escaped pair fits it |
| JsonLaws.PairPassesLimit | libs/collabtext/src/codec/JsonReader.cpp:593-627 | wherever fewer than four bytes are left, a pair passes the limit, and then almost any text after it |
| JsonLaws.EveryLimitIsPassed | libs/collabtext/src/codec/JsonReader.cpp:593-627 | such an input for every limit |
| JsonGrammar.DocumentOfLayout | libs/collabtext/src/codec/JsonReader.cpp:256-494 | within the limits, a document the grammar derives is read as its value exactly if no empty container holds white space, and refused otherwise |
| JsonGrammar.DocumentHasLayout | libs/collabtext/src/codec/JsonReader.cpp:256-494 | whatever strings, arrays and objects are read, the grammar derives the document without white space in empty containers |
| JsonGrammar.DocumentIsSpelled | libs/collabtext/src/codec/JsonReader.cpp:256-494 | the two together: read as a value exactly if derived |
| JsonGrammar.UnescapeChars | libs/collabtext/src/codec/JsonReader.cpp:496-653 | a string within its limit, spelled by any characters and escapes of section 7 of RFC 8259, is read as its text |
| JsonGrammar.UnescapeHasChars | libs/collabtext/src/codec/JsonReader.cpp:496-653 | every string that is read is spelled so |
| JsonGrammar.EmptyArray | libs/collabtext/src/codec/JsonReader.cpp:449-465 | brackets around white space are read exactly if there is none, at any depth and budget |
| JsonGrammar.EmptyObject | libs/collabtext/src/codec/JsonReader.cpp:380-396 | the same for braces |
| FrameLimits.UndoIsEncodable | libs/collabtext/src/codec/OperationCodec.cpp:125-140 | an undo that is in order can be encoded exactly if ten, its frontier and five for each target are at most 100,000 |
| FrameLimits.EditIsEncodable | libs/collabtext/src/codec/OperationCodec.cpp:326-363 | an edit that is in order can be encoded exactly if its frame keeps the limits on values, counted exactly, and on bytes |
| FrameLimits.InsertionIsEncodable | libs/collabtext/src/codec/OperationCodec.cpp:326-363 | an insertion that is in order can be encoded exactly if its text, escaped and taken twice, fits the frame |
| LongEdits.UndoOfGroup | libs/collabtext/src/DocumentSession.cpp:120-131 | the same for the undo of a group, in terms of its targets |
| LongEdits.LongUndoIsEncodable | libs/collabtext/src/DocumentSession.cpp:120-131 | the undo of an insertion of `n` scalars can be encoded exactly if `n` is at most 19,997 |
| LongEdits.LongInsertionIsEncodable | libs/collabtext/src/DocumentSession.cpp:120-131 | the insertion itself exactly if `n` is at most 4,194,105 |

## Left out

Simplifications:

- Offsets of edits and patches count Unicode scalars, not UTF-8 bytes; `Utf` relates the two, and the test that an offset does not split a scalar has no counterpart.
- Counters, sizes and undo counts are unbounded outside `Clock`, `PositionTokens` and `WireOperations`: exhaustion of counters and the 32-bit wrap of undo counts are not modelled. The undo budgets keep the width of `size_t`.
- Trees, node identities, copy-on-write and diagnostics counters: a document is a sequence of runs addressed by rank. The per-actor index of a placement walk is a search, persistent maps are maps.
- The estimated size of an operation is a parameter of a replica.
- The byte ranges and texts an operation repeats as hints are carried on the wire only; an operation of the engine has their number.
- A membership batch without a function for its durable write (MembershipCoordinator.cpp:150): there always is one.
- I/O, clocks and locks: durable writes have an outcome chosen by the environment, the coordinator's lock is a set of leases, and the session's inbound deliveries are reduced to whether anything is still deferred or rejected.

Not modelled:

- Local insertion and removal of markers (Buffer.cpp:2888-3030): received marker edits are modelled.
- Counter gaps, reclamation, quarantine reporting, checkpoints, `restore_local_history`, `discard_local_view` and garbage collection, and so all that follows a physical collection.
- Joining groups inside a `Replica`: `UndoHistories.UndoHistory.CoalesceLast` is about the history alone.
- `AnchorPins`, `Projection`, `CrdtEngine`, `IdListEngine`, the list operations, transports, storage encodings, user interface and SHA-256.
- Numbers, error contexts and header interpretation of the JSON reader, the text of errors, and which of two malformed codes the operation decoder reports.

Contracts weaker than one might expect:

- FastEdits.EditVisible: a fast path may decline where the engine's would not, for example because a handle is used up; the general path then makes the edit, with the same promise.
- MiddleInsertion.IsDescendant: exact for neighbours only, which is all it is called for; for other pairs the step cap can make the answer a wrong no, never a wrong yes.
- Replicas.Replica.EditText: for one range, which of the two numbers of deletion runs is emitted depends on whether a fast path makes the edit; the contract gives both numbers and when they can differ, not which path is taken.
- SessionPublication.DocumentSession.ReconcilePending: leaves out the tests that the stored operation decodes and is this actor's; an intent holds what the encoder wrote for an operation of this session, which decodes to it (`OperationLaws.MeaningOfFrame`).
- UndoHistories.UndoHistory.CheckNewEntry: assumes that the bytes retained by the active groups and the new one stay within `size_t`, which a replica's budgets ensure.
- PositionTokens.TokenOfFrame: the selection field of positions that are not attachments is not written, so it is read back as its default.
- SessionPublication.ReopenCompletes: assumes that pushing the same payload under the same token twice is accepted, as the transport promises.
