# Persisting, verified

A Dafny model of the parts of Persisting where correctness is a property of whole runs, and proofs of
those properties. `dafny verify dfyconfig.toml` checks the project.

The model follows the code. State that the source updates in place is a class whose methods are proved
to perform a step of a pure protocol; the protocol's theorems range over every sequence of such steps.
Clocks, storage outcomes, header and JSON codecs, callbacks, controllers, routing functions and query
engines are parameters, so the theorems hold for all of them.

| part | files |
|---|---|
| Run leases, fencing epochs and the single commit | `RunControl`, `RunTraces`, `RunAnswers`, `MemoryControl` |
| The registry of attempts | `AttemptRegistry`, `MemoryControl` |
| The persistent queue: flush protocol, log, streams, reads during flushes, consumption | `FlushProtocol`, `LanceLog`, `Streams`, `FlightReads`, `Consumption` |
| Greedy sampling of complete groups | `GroupSampler`, `Sorting` |
| Key-value access on top of the queue | `KeyIndex` |
| The zero-copy tensor envelope | `Envelope` |
| Sequence numbers of captured records | `SequenceSink` |
| Partitioned tables against one flat table | `PartitionedTable`, `PartitionedStore` |
| Trajectory files, rich blocks, Responses input | `Trajectory`, `TrajectoryIdentity`, `RichBlocks`, `Fences`, `ResponsesInput` |
| Authorization state machine and network rules | `ControlMachine`, `NetworkPolicy`, `AddressBlocks` |

## What is proved, in short

* A Run is committed at most once, by the largest epoch ever issued for it, and its record is frozen from
  then on; an epoch number fixes its owner, task, issue time and attempt; without takeover and with a clock
  that never goes back, tenures do not overlap.
* In every interleaving of puts and flushes, failing or not, exactly the rows of cancelled flushes are lost and
  none is repeated; the order of puts is kept exactly by the completions that store the oldest or give back the
  newest flight.
* The greedy sampler finds a batch whenever one exists, for every request exactly on lists without repeats.
* A filter over all partitions answers, order aside, as the flat table would.
* A partitioned upsert agrees with one upsert on the flat table if and only if no source row matches a stored
  row of another partition; any run of adds, deletes and upserts that join on the partition column agrees.
* Per storage key, accepted records are numbered 0, 1, 2, ... in every interleaving, and steps under other
  keys have no effect.
* Rewriting a trajectory file changes its turn count and nothing else, whatever the turns contain; a file's
  content determines its session, agent, turn count and all that follows the preamble.
* Printing and parsing rich blocks, packing and unpacking descriptors, and batching tool calls lose nothing.
* The staged network filters accept exactly when one single rule passes every stage.

## Properties that fail, and exactly when

* A failed flush can still be waiting for the lock when a later one is stored; its rows then end up behind
  (`TwoFlightsReorder`). `OrderKeptExactly` says which completions keep the order.
* A flush cancelled while it waits to give its rows back loses them (`CancelledFlushLoses`). No row is lost if and
  only if no flush in flight is cancelled (`NothingLostOrRepeated`).
* `put_tensor` numbers its rows from `total_count`, which leaves out rows in flight. The numbers are right if
  and only if no flush is in flight (`AssignedIndexIsPosition`, `IndexReusedInFlight`).
* Readers do not see rows in flight: what they see is the log if and only if none is (`ReadersSeeRows`). One read
  returns what the log holds there if and only if nothing is in flight, or it asks for nothing, stays within the
  dataset or starts past the end (`ReadSeesRowsExactly`, for rows that can be told apart).
* A stream that looks while a flush is in flight can deliver one row twice and miss another (`StreamMissesFlight`). In
  an orderly run it delivers consecutive rows of the log if and only if each of its batches is taken with nothing in
  flight, is empty, or lies within the dataset (`StreamFollowsExactly`, from `BatchSeesRowsExactly`).
* With repeated ready indexes the greedy scan can miss a group that is there, and can hand one index out twice
  (`RepeatsDefeatTheScan`). It serves every request as it should if and only if the ready list has no repeats
  (`ServesBestExactly`), which `get_meta` guarantees.
* Overlapping `get_meta` calls can hand out the same index (`OverlappingCallsCanShare`). An index marked by one call can
  be handed out to another if and only if that one began no later than the first finished and counted the row
  (`SharedExactlyOnOverlap`); what a call counts leaves out rows in flight.
* Even calls that do not overlap can be given one row twice, under two indexes, when it is read while another row is in
  flight (`RowSharedInFlight`). Rows that are readable when they are read are never shared (`LaterCallsShareNoRow`), and
  an index is looked up as its row if and only if it is readable (`LookupExactly`).
* An upsert that does not join on the partition column can duplicate a row that changes partition
  (`JoinElsewhereCanFail`); `UpsertAgreesExactly` is the exact condition.
* A descriptor cut short inside its buffers is unpacked without an error; only a cut before the end of the
  header is noticed (`TruncationIsNoticedInHeaderOnly`).
* A takeover can start a tenure before the previous lease expires (`TakeoverOverlaps`), and nothing else can:
  tenures overlap if and only if a live lease was taken over (`OverlapsExactlyOnTakeover`).
* A key put with plain data, the wrong number of samples or the wrong number of tags raises after its rows were
  appended (`FailedPutsAppend`). A put that fails leaves no trace if and only if it has no rows or repeats a key
  (`FailedPut`); the rows left behind are never reached by any key (`StrandedRowsStayUnreachable`,
  `BatchGetSkipsStranded`).

## Model

| member | source | states |
|---|---|---|
| RunTraces.EffectKeepsInvariants | crates/persisting-events/src/control.rs:664-876 | One call of any kind keeps the record invariants, develops the record monotonically and raises the epoch by at most one |
| RunTraces.RecordStep | crates/persisting-events/src/control.rs:664-876 | A call changes the record of the Run it names and of no other |
| RunTraces.RecordsWellFormed | crates/persisting-events/src/control.rs:664-876 | In every reachable state a record carries a lease with a positive epoch, and a commit matches that lease's epoch, attempt and unexpired time |
| RunTraces.RecordsDevelop | crates/persisting-events/src/control.rs:664-876 | Over any stretch of any trace revisions and epochs never decrease, an epoch keeps its tenure, an unsaturated revision identifies the record, a committed record never changes |
| RunTraces.GrantIsRecorded | crates/persisting-events/src/control.rs:698-726 | A lease handed out is the one on record, and the Run is not committed |
| RunTraces.CommitIsFenced | crates/persisting-events/src/control.rs:820-876 | A successful commit names the current unexpired epoch and its bound attempt, and is recorded |
| RunTraces.CommittedRunAnswers | crates/persisting-events/src/control.rs:664-876 | Once committed, no call is granted or accepted and every commit shown is the recorded one |
| RunTraces.CommitIsFinal | crates/persisting-events/src/control.rs:664-876 | At most one Committed reply per Run; its epoch is the largest ever issued and its attempt the one bound to that lease; the record is frozen and later replies show only this commit |
| RunTraces.EpochFixesTenure | crates/persisting-events/src/control.rs:685-726 | Two leases of a Run with one epoch number have one owner, task, issue time and bound attempt |
| RunTraces.EpochChangeOpens | crates/persisting-events/src/control.rs:685-726 | An epoch changes only by an acquire call that raises it by one and hands out the new lease |
| RunTraces.EveryEpochOpenedOnce | crates/persisting-events/src/control.rs:685-726 | Every epoch number up to the current one was opened by exactly one call |
| RunTraces.SupersededEpochIsPowerless | crates/persisting-events/src/control.rs:756-876 | A superseded epoch can never again bind, renew or commit |
| RunTraces.UnforcedGrantWaits | crates/persisting-events/src/control.rs:685-726 | Without takeover a new epoch goes to another owner and starts no earlier than the replaced lease's expiry |
| RunTraces.LaterEpochsStartLater | crates/persisting-events/src/control.rs:685-726 | With a clock that never goes back, later epochs are issued no earlier |
| RunTraces.HoldingPeriodsDisjoint | crates/persisting-events/src/control.rs:685-726 | With such a clock and no takeover, an epoch's last expiry is no later than the start of every later tenure |
| RunTraces.TakeoverOverlaps | crates/persisting-events/src/control.rs:746-754 | A takeover can start a tenure before the previous expiry |
| RunTraces.OverlapsExactlyOnTakeover | crates/persisting-events/src/control.rs:685-754 | A tenure starts before the previous expiry if and only if a live lease was taken over |
| RunAnswers.BindExactly | crates/persisting-events/src/control.rs:756-788 | A bind is accepted exactly under the live lease it names, free or already with its attempt; then the lease on record carries the attempt and is otherwise unchanged, and a refused bind changes nothing |
| RunAnswers.AcceptedBindsAgree | crates/persisting-events/src/control.rs:756-788 | In every trace two accepted binds of one epoch name the same attempt |
| RunAnswers.CommitIsByBoundAttempt | crates/persisting-events/src/control.rs:756-876 | A commit of an epoch that an accepted bind bound is by that attempt, and comes after the bind |
| RunAnswers.RenewExactly | crates/persisting-events/src/control.rs:790-818 | A renewal is accepted exactly from the owner of the live lease it names; it moves the expiry to the deadline and changes nothing else of the lease |
| RunAnswers.AcquireExactly | crates/persisting-events/src/control.rs:664-727 | A lease is handed out exactly to a named owner of an uncommitted Run with no live lease of another in the way and epochs left; it runs until the deadline asked for |
| RunAnswers.GrantIs | crates/persisting-events/src/control.rs:698-726 | The holder is only prolonged; anyone else gets the next epoch, from now on, for their task, unbound |
| RunAnswers.RefusalSaysWhy | crates/persisting-events/src/control.rs:664-704 | Who is turned away is shown the lease in the way, the commit, or that the request is invalid |
| RunAnswers.CommitExactly | crates/persisting-events/src/control.rs:820-876 | Which of the five answers a commit gets, exactly |
| RunAnswers.RevisionCountsWrites | crates/persisting-events/src/control.rs:664-876 | The revision of a Run's record counts the calls that changed it until it saturates |
| MemoryControl.MemoryChronicleControl.constructor | crates/persisting-events/src/control.rs:656-662 | A new control plane has no Runs and no attempts |
| MemoryControl.MemoryChronicleControl.AcquireInner | crates/persisting-events/src/control.rs:664-727 | The table and the reply are those of the protocol's acquire step |
| MemoryControl.MemoryChronicleControl.AcquireLease | crates/persisting-events/src/control.rs:736-744 | The protocol's acquire step without force |
| MemoryControl.MemoryChronicleControl.TakeoverLease | crates/persisting-events/src/control.rs:746-754 | The protocol's acquire step with force |
| MemoryControl.MemoryChronicleControl.BindAttempt | crates/persisting-events/src/control.rs:756-788 | The protocol's bind step: write-once, under an unexpired lease of the given epoch |
| MemoryControl.MemoryChronicleControl.RenewLease | crates/persisting-events/src/control.rs:790-818 | The protocol's renew step |
| MemoryControl.MemoryChronicleControl.CommitRun | crates/persisting-events/src/control.rs:820-876 | The protocol's commit step |
| MemoryControl.MemoryChronicleControl.PublishAttemptActive | crates/persisting-events/src/control.rs:906-946 | The registry's publish-active step |
| MemoryControl.MemoryChronicleControl.PublishAttemptTerminal | crates/persisting-events/src/control.rs:948-975 | The registry's publish-terminal step |
| MemoryControl.MemoryChronicleControl.HeartbeatAttempt | crates/persisting-events/src/control.rs:977-1002 | The registry's heartbeat step |
| AttemptRegistry.RecordStep | crates/persisting-events/src/control.rs:906-1002 | A call changes the attempt record of the Run it names and of no other |
| AttemptRegistry.RecordsWellFormed | crates/persisting-events/src/control.rs:906-1002 | A result is on record exactly for terminal attempts, and epochs are positive |
| AttemptRegistry.RecordsDevelop | crates/persisting-events/src/control.rs:906-1002 | (epoch, state) never moves back, an epoch keeps its attempt, a terminal record is fixed within its epoch, equal unsaturated revisions mean equal records |
| AttemptRegistry.RevisionCountsWrites | crates/persisting-events/src/control.rs:906-1002 | The revision is the number of writes until it saturates |
| AttemptRegistry.AcceptedMeansWritten | crates/persisting-events/src/control.rs:906-1002 | Below saturation a call writes exactly when it is accepted, except for repeating the recorded terminal result |
| AttemptRegistry.TerminalResultIsUnique | crates/persisting-events/src/control.rs:948-975 | The first terminal result of an epoch is the only one ever acknowledged for it |
| AttemptRegistry.TerminalAttemptStaysDead | crates/persisting-events/src/control.rs:69-73 | After a terminal result no attempt is live until a higher epoch is published |
| AttemptRegistry.PublishActiveExactly | crates/persisting-events/src/control.rs:906-946 | When an attempt is published, exactly, and what is then on record until which deadline |
| AttemptRegistry.HeartbeatExactly | crates/persisting-events/src/control.rs:977-1002 | A heartbeat is accepted exactly from the active attempt on record; it moves the expiry to the deadline and changes nothing else |
| AttemptRegistry.PublishTerminalExactly | crates/persisting-events/src/control.rs:948-975 | A result is accepted exactly from the attempt on record, if it is the first or the one there; it is then on record and the attempt is never live again |
| AttemptRegistry.LiveUntilDeadline | crates/persisting-events/src/control.rs:69-73 | An attempt is live exactly until its deadline, counted from its last accepted publication or heartbeat |
| FlushProtocol.StepConserves | persisting/queue/backend.py:353-380 | One put, detach, store, give-back or cancellation changes the multiset of rows by exactly what was put and what was cancelled |
| FlushProtocol.NothingLostOrRepeated | persisting/queue/backend.py:353-412 | Persisted + in flight + buffered equals, as a multiset, all rows ever put, if and only if no flush in flight was cancelled |
| FlushProtocol.OnlyCancelledRowsAreLost | persisting/queue/backend.py:353-412 | In every interleaving the rows present and the rows of cancelled flushes together are all rows ever put |
| FlushProtocol.CancelledFlushLoses | persisting/queue/backend.py:376-412 | A flush cancelled while it waits to give its rows back loses them |
| FlushProtocol.StepInOrder | persisting/queue/backend.py:353-380 | Storing the oldest flight or giving back the newest keeps the order of rows |
| FlushProtocol.OrderKept | persisting/queue/backend.py:353-380 | A run of orderly steps keeps the order of puts |
| FlushProtocol.SingleFlightKeepsOrder | persisting/queue/backend.py:353-380 | With never more than one flush in flight and none cancelled the order of puts is kept |
| FlushProtocol.OrderKeptExactly | persisting/queue/backend.py:353-380 | For distinguishable rows, the orderly steps are exactly those that keep the order |
| FlushProtocol.TwoFlightsReorder | persisting/queue/backend.py:353-380 | In a run the code can take, a later flush is stored while a failed one waits, and the rows end up out of order |
| FlushProtocol.AssignedIndexIsPosition | persisting/queue/backend.py:183-192 | In every reachable state the next row number is its real position if and only if nothing is in flight |
| FlushProtocol.IndexReusedInFlight | persisting/queue/backend.py:183-192 | While a row is in flight its number is given out again |
| FlushProtocol.NumberStaysRight | persisting/queue/backend.py:183-192 | In an orderly run a row numbered with nothing in flight keeps that number as its position in every later state |
| FlushProtocol.RowsGrow | persisting/queue/backend.py:353-380 | In an orderly run the rows at one time are a prefix of the rows at any later time |
| FlightReads.ReadersSeeRows | persisting/queue/backend.py:429-448 | In every reachable state readers see all rows in their places if and only if nothing is in flight |
| FlightReads.ReadSeesRowsExactly | persisting/queue/backend.py:429-448 | A read returns what the log holds there if and only if nothing is in flight, or it asks for nothing, stays within the dataset or starts past the end |
| FlightReads.BatchSeesRowsExactly | persisting/queue/backend.py:344-349 | A stream's batch is what the log holds at its position if and only if nothing is in flight, or it is empty, or it lies within the dataset |
| FlightReads.LookupExactly | persisting/queue/backend.py:214-236 | Looking up an index returns its row if and only if nothing is in flight or the row is in the dataset already |
| FlightReads.ReadableIsPut | persisting/queue/backend.py:353-448 | In an orderly run a row that can be read is the one put at its position, at any later time |
| LanceLog.FlushKeepsRows | persisting/queue/backend.py:353-380 | An uninterrupted flush leaves no flight and the same log, whether or not the write succeeds |
| LanceLog.PutAppends | persisting/queue/backend.py:153-173 | A put, with the flush it may trigger, appends its rows to the log |
| LanceLog.GatherRange | persisting/queue/backend.py:214-236 | Pointwise lookup of a contiguous run of indices is a slice of the log |
| LanceLog.SliceOfConcat | persisting/queue/backend.py:429-448 | A slice across the seam between dataset and buffer is a slice of either side |
| LanceLog.ReadyIsUnconsumed | persisting/queue/backend.py:258-261 | The ready list is strictly ascending and holds exactly the indexes a task has not consumed |
| LanceLog.BatchIsReady | persisting/queue/backend.py:258-289 | A group batch is drawn from the unconsumed indexes |
| Streams.PullThenMore | persisting/queue/backend.py:319-351 | A batch followed by what the rest of the stream delivers is one stretch of the final log |
| Streams.StreamFollowsLog | persisting/queue/backend.py:319-351 | However the log grows between batches, a stream delivers consecutive rows without gap or repeat, never more than asked |
| FlightReads.StreamFollowsRun | persisting/queue/backend.py:319-351 | In every orderly run, rows that cannot be told apart included, a stream that looks only with nothing in flight delivers consecutive rows of the log |
| FlightReads.StreamFollowsExactly | persisting/queue/backend.py:319-351 | In an orderly run of rows that can be told apart, a stream that looks at any moments delivers consecutive rows of the log if and only if each of its batches is settled |
| FlightReads.StreamMissesFlight | persisting/queue/backend.py:319-351 | A stream that looks while a flush is in flight can deliver one row twice and miss another |
| Streams.OneMoreTurn | persisting/queue/backend.py:329-351 | One more turn delivers the batch that the position and the remaining count stand for |
| Streams.PullFills | persisting/queue/backend.py:344 | A batch is as long as the request, a hundred and the rest of the log allow |
| LanceLog.LanceBackend.constructor | persisting/queue/backend.py:418-427 | A new backend's log is the recovered dataset |
| LanceLog.LanceBackend.TotalCount | persisting/queue/backend.py:150-151 | The count is the length of the log |
| LanceLog.LanceBackend.Flush | persisting/queue/backend.py:353-380 | The flush protocol run to its end: all rows in the dataset, or everything as it was; the log does not change |
| LanceLog.LanceBackend.PutBatch | persisting/queue/backend.py:164-173 | The log grows by the records; at the threshold, and only then, a write that succeeds leaves everything in the dataset and the buffer empty |
| LanceLog.LanceBackend.Put | persisting/queue/backend.py:153-162 | The log grows by the record |
| LanceLog.LanceBackend.PutTensor | persisting/queue/backend.py:175-208 | The returned indexes are those at which the log holds the rows |
| LanceLog.LanceBackend.Read | persisting/queue/backend.py:429-448 | The slice of the log, however much is flushed |
| LanceLog.LanceBackend.SplitRuns | persisting/queue/backend.py:214-236 | The runs expand to the given indices, in order |
| LanceLog.LanceBackend.GetByIndices | persisting/queue/backend.py:214-236 | Pointwise lookup of the in-range indices in the given order |
| LanceLog.StreamMoves | persisting/queue/backend.py:344-349 | A batch of one to a hundred rows continues what was delivered, and is full unless the request or the log ends |
| LanceLog.LanceBackend.GetStream | persisting/queue/backend.py:319-351 | Terminates; the batches concatenate to the slice of the log and hold a hundred rows each, the last one at least one |
| LanceLog.LanceBackend.GetMeta | persisting/queue/backend.py:248-289 | The next unconsumed indexes in order, as many as asked for or there are, and exactly these become consumed |
| LanceLog.TakesSmallest | persisting/queue/backend.py:263-267 | Whatever is taken from the ready list, every smaller unconsumed index is taken too |
| LanceLog.TakeCounts | persisting/queue/backend.py:266 | A bound takes that many, as far as there are; a negative one leaves that many out |
| LanceLog.LanceBackend.GetMetaGrouped | persisting/queue/backend.py:248-289 | A cached batch or the best group batch of the unconsumed indexes, and exactly it becomes consumed |
| LanceLog.LanceBackend.MarkConsumed | persisting/queue/backend.py:291-293 | The indexes are added to what a consumer of that name has consumed |
| LanceLog.LogStream.constructor | persisting/queue/backend.py:319-327 | A stream starts at its offset with its limit remaining |
| LanceLog.LogStream.Resume | persisting/queue/backend.py:329-351 | One turn of a waiting or non-waiting stream, the queue free to change between turns: all rows handed out so far are those delivered from the logs seen, and exactly when the stream ends |
| LanceLog.LogStream.NextRows | persisting/queue/backend.py:330-344 | The batch that the position and the remaining count stand for in the log as it is |
| LanceLog.LogStream.Advance | persisting/queue/backend.py:346-351 | Moving past a batch keeps what was handed out equal to what the turns found |
| Consumption.LaterCallsShareNothing | persisting/queue/backend.py:258-289 | In every interleaving a call that starts after another of its task finished shares no index with it |
| Consumption.ReadyExactly | persisting/queue/backend.py:258-261 | An index is ready for a call exactly when the call counted its row and no step before the call began marked it |
| Consumption.CanHandOutExactly | persisting/queue/backend.py:258-289 | Any run can go on with a call that hands out an index, exactly when it was ready as that call began |
| Consumption.SharedExactlyOnOverlap | persisting/queue/backend.py:258-289 | An index marked by one call can be handed out again exactly to calls that overlap it and counted the row |
| Consumption.OverlappingCallsCanShare | persisting/queue/backend.py:258-289 | Overlapping calls can hand out one index twice |
| Consumption.LaterCallsShareNoRow | persisting/queue/backend.py:238-289 | In an orderly run of the queue calls that do not overlap are given different rows, provided each is readable when it is read |
| Consumption.RowSharedInFlight | persisting/queue/backend.py:238-289 | Read while another row is in flight, one row goes to two calls that do not overlap and another to none |
| Sorting.SortedSorts | persisting/sampler/grpo_group_n_sampler.py:39 | The scan's order is an ascending permutation of the ready indexes |
| GroupSampler.GreedyIsSound | persisting/sampler/grpo_group_n_sampler.py:38-53 | The groups found are disjoint blocks of consecutive ready indexes |
| GroupSampler.GreedyIsOptimal | persisting/sampler/grpo_group_n_sampler.py:38-53 | No family of disjoint blocks has more members than the scan finds |
| GroupSampler.BatchIsBest | persisting/sampler/grpo_group_n_sampler.py:28-61 | The batch is whole groups of ascending ready indexes; it has the full size if such a family exists and is empty otherwise |
| GroupSampler.MakeSampler | persisting/sampler/grpo_group_n_sampler.py:13-17 | A sampler is made exactly for positive group sizes, with an empty cache |
| GroupSampler.GroupNSampler.Visit | persisting/sampler/grpo_group_n_sampler.py:43-50 | One turn of the scan keeps the selection equal to the first greedy groups |
| GroupSampler.GroupNSampler.Scan | persisting/sampler/grpo_group_n_sampler.py:38-53 | The scan finds enough groups exactly when the greedy family has them, and selects the first ones |
| GroupSampler.GroupNSampler.Sample | persisting/sampler/grpo_group_n_sampler.py:28-61 | Size check, replay of a cached batch, otherwise the best batch, cached when a rank asked for it |
| GroupSampler.RepeatsDefeatTheScan | persisting/sampler/grpo_group_n_sampler.py:38-53 | A repeated index can hide a group that is there, and can be handed out twice |
| GroupSampler.WholeListHandedOut | persisting/sampler/grpo_group_n_sampler.py:38-53 | With groups of one a request for as many indexes as there are hands out the sorted list, repeats included |
| GroupSampler.ServesBestExactly | persisting/sampler/grpo_group_n_sampler.py:28-61 | Every request is served with a full batch whenever one exists and nothing otherwise, if and only if the list has no repeats |
| KeyIndex.RegisterPoints | persisting/queue/kv_interface.py:57-61 | Registering a batch points each of its keys at its row and leaves all other slots alone |
| KeyIndex.RegisterTags | persisting/queue/kv_interface.py:57-61 | Each key of a batch gets its own tag, or the empty one, and no other slot changes its tag |
| KeyIndex.StepPoints | persisting/queue/kv_interface.py:20-61 | One operation keeps every slot pointing at the row of its latest put |
| KeyIndex.IndexFollowsHistory | persisting/queue/kv_interface.py:20-61 | After any operations a slot is known exactly when it was put, and points at its latest row, field names and tag |
| KeyIndex.ResolvedRowsAreLatest | persisting/queue/kv_interface.py:110-123 | Resolving keys and reading the log gives the latest rows in request order, and the inferred fields are theirs |
| KeyIndex.BatchGetReturnsLatest | persisting/queue/kv_interface.py:68-95 | After any operations a batch get returns the latest row of each known key, restricted to the chosen fields |
| KeyIndex.BatchGetRestricts | persisting/queue/kv_interface.py:68-95 | Each item holds exactly the cells of the latest row that go by the names asked for, else inferred, else stored with the row, with their values |
| KeyIndex.InferredFromFirst | persisting/queue/kv_interface.py:118-123 | The inferred names are those of the first requested key that has any, and none exactly if no key has |
| KeyIndex.FailedPut | persisting/queue/kv_interface.py:27-55 | A failed put changes no key, keeps its rows in the log, and leaves no trace if and only if it has no rows or repeats a key |
| KeyIndex.FailedPutsAppend | persisting/queue/kv_interface.py:27-55 | Plain data, a wrong size and mismatched tags each raise after the append |
| KeyIndex.StrandedRowsStayUnreachable | persisting/queue/kv_interface.py:20-61 | No slot ever points at a row left by a failed put or a plain append |
| KeyIndex.BatchGetSkipsStranded | persisting/queue/kv_interface.py:68-95 | No later batch get reads such a row |
| KeyIndex.PutsAreNumbered | persisting/queue/backend.py:183-192 | In an orderly run a put made with nothing in flight is numbered as the operations number it |
| KeyIndex.KeysStayRight | persisting/queue/kv_interface.py:68-95 | Through any orderly run of the queue, a row that is readable when read is the latest one put under its slot |
| KeyIndex.KVInterface.constructor | persisting/queue/kv_interface.py:14-18 | A new interface knows no keys |
| KeyIndex.KVInterface.QueuePut | persisting/queue/queue.py:148-176 | Rows are appended; only tensor batches report their indexes |
| KeyIndex.KVInterface.KvPut | persisting/queue/kv_interface.py:20-37 | The single-put step; accepted exactly for one tensor sample |
| KeyIndex.KVInterface.RegisterKeys | persisting/queue/kv_interface.py:57-61 | Each key is pointed at its index, with the batch's field names and its own tag |
| KeyIndex.KVInterface.KvBatchPut | persisting/queue/kv_interface.py:39-61 | The batch-put step; accepted exactly for distinct keys, matching sizes and matching tags, and which error otherwise |
| KeyIndex.KVInterface.KvBatchGet | persisting/queue/kv_interface.py:68-95 | The batch get of the current state; with fields given, no item holds another |
| Envelope.Le32RoundTrip | persisting/queue/tensor_serde.py:138-158 | A little-endian 32-bit length reads back as written |
| Envelope.CopyInto | persisting/queue/tensor_serde.py:133-147 | Writing bytes at an offset extends what was written before it |
| Envelope.WriteBuffers | persisting/queue/tensor_serde.py:144-149 | The buffers follow each other after the header |
| Envelope.PackDescriptor | persisting/queue/tensor_serde.py:112-149 | Prefix, header length, header and all buffers; a header of 2^32 bytes or more is an error |
| Envelope.UnpackDescriptor | persisting/queue/tensor_serde.py:152-190 | The decoded header with the buffers cut at its lengths, or the error of the first check that fails |
| Envelope.CutBuffers | persisting/queue/tensor_serde.py:164-168 | The loop cuts consecutive pieces of the given lengths, short ones past the end |
| Envelope.RoundTrip | persisting/queue/tensor_serde.py:112-190 | Unpacking a packed descriptor returns every buffer and field, for any buffers, and ignores anything appended |
| Envelope.CutKeepsBytes | persisting/queue/tensor_serde.py:164-168 | The buffers cut out are, end to end, the bytes after the header |
| Envelope.TruncationIsNoticedInHeaderOnly | persisting/queue/tensor_serde.py:152-190 | A cut is an error if and only if it falls before the end of the header; otherwise the bytes left are returned |
| Envelope.PackedLayout | persisting/queue/tensor_serde.py:128-149 | The bytes are the prefix, the header length, the header and the buffers, in these places |
| Envelope.LowestFirst | persisting/queue/tensor_serde.py:138 | The length stands in four bytes, the lowest first |
| Envelope.PrefixReads | persisting/queue/tensor_serde.py:133 | The prefix spells its name |
| Envelope.HeaderDescribes | persisting/queue/tensor_serde.py:118-127 | The header gives the number and the length of the buffers |
| Envelope.RefusedExactly | persisting/queue/tensor_serde.py:152-162 | Which payloads are refused, and with which error, exactly |
| SequenceSink.FetchKeepsKey | crates/persisting-gateway/src/sink.rs:106-113 | Fetching or creating a counter keeps the per-key invariant |
| SequenceSink.LockKeepsKey | crates/persisting-gateway/src/sink.rs:117-121 | Locking, and giving up on an exhausted counter, keeps it |
| SequenceSink.AcceptKeepsKey | crates/persisting-gateway/src/sink.rs:129 | An accepting callback keeps it |
| SequenceSink.RejectKeepsKey | crates/persisting-gateway/src/sink.rs:129 | A rejecting callback keeps it |
| SequenceSink.AdvanceKeepsKey | crates/persisting-gateway/src/sink.rs:130-131 | Advancing and unlocking keeps it |
| SequenceSink.KeyInvariantHolds | crates/persisting-gateway/src/sink.rs:104-138 | In every interleaving mutex, threads, counter and accepted records of a key agree |
| SequenceSink.AcceptedWithoutGaps | crates/persisting-gateway/src/sink.rs:104-138 | The records accepted under a key are numbered 0, 1, 2, ... in acceptance order |
| SequenceSink.CallbackSeesCount | crates/persisting-gateway/src/sink.rs:117-129 | Every callback sees the number of records accepted before under its key |
| SequenceSink.OneCallPerKey | crates/persisting-gateway/src/sink.rs:114-131 | At most one thread is between lock and unlock of a key |
| SequenceSink.PeekIsCount | crates/persisting-gateway/src/sink.rs:134-137 | A peek waits exactly while an append of the key is in progress, and returns the number accepted |
| SequenceSink.RejectionLeavesNoGap | crates/persisting-gateway/src/sink.rs:114-131 | A rejected append leaves counters and records as they were |
| SequenceSink.AppendCounts | crates/persisting-gateway/src/sink.rs:105-132 | In every reachable state an accepted append by an idle thread to an unlocked key adds the record with the next number and leaves the key unlocked with one more; a rejected one leaves the count |
| SequenceSink.ExhaustedKeyRefuses | crates/persisting-gateway/src/sink.rs:117-121 | A key whose numbers have run out takes no record and is left unlocked |
| SequenceSink.HolderCanFinish | crates/persisting-gateway/src/sink.rs:117-131 | In every reachable state the holder of a key can finish by itself, and then the key is unlocked with the number accepted |
| SequenceSink.OtherKeysHaveNoEffect | crates/persisting-gateway/src/sink.rs:104-138 | Leaving out all steps of other keys gives the same counter, records and working threads for a key |
| PartitionedTable.MergeCount | persisting/dldb/table.py:584-595 | How often each row occurs after an upsert: matched rows become their source row, unmatched source rows are added |
| PartitionedTable.UpsertAgreesExactly | persisting/dldb/table.py:882-898 | The per-partition upsert represents the flat upsert if and only if no source row matches a stored row of another partition |
| PartitionedTable.JoinOnPartitionColumn | persisting/dldb/table.py:882-898 | Joining on the partition column rules such matches out |
| PartitionedTable.JoinElsewhereCanFail | persisting/dldb/table.py:584-595 | Joining only on other columns, rows that agree in every join column but not in partition leave partitions that do not represent the flat upsert |
| PartitionedStore.GroupsCover | persisting/dldb/table.py:720-727 | The groups of a data frame are distinct and are exactly the partitions its rows route to |
| PartitionedStore.StepAgrees | persisting/dldb/table.py:379-389 | An add, delete or well-keyed upsert applied partition by partition represents the flat operation |
| PartitionedStore.ApplyCounts | persisting/dldb/table.py:379-389 | How often each row is there after an add, an upsert or a delete, said without the operation: brought, replaced by key, or gone |
| PartitionedStore.DbNextCounts | persisting/dldb/table.py:882-898 | So in every partition, with the rows that belong to it |
| PartitionedStore.FlatCounts | persisting/dldb/table.py:882-898 | So for the flat table, counted in the partition a row belongs to |
| PartitionedStore.AllWritten | persisting/dldb/table.py:882-898 | Writing every group, or for a delete every partition, is the whole operation |
| PartitionedStore.DbNextApplied | persisting/dldb/table.py:882-898 | After an operation every partition, existing or not, went through it with its own rows |
| PartitionedStore.RunAgrees | persisting/dldb/table.py:669-898 | Any run of adds, deletes and well-keyed upserts leaves the partitions of the flat run |
| PartitionedStore.AnswersPrefix | persisting/dldb/table.py:526-553 | The answers of fewer partitions are a prefix of those of more |
| PartitionedStore.NotReached | persisting/dldb/table.py:526-553 | Once the limit is used up, missing partitions further on do not matter |
| PartitionedStore.EnoughFound | persisting/dldb/table.py:526-553 | A prefix of the partitions that fills the limit gives the whole limited answer |
| PartitionedStore.FilterIsFlat | persisting/dldb/table.py:505-553 | A filter over all partitions answers with the matching rows of the flat table, order aside |
| PartitionedStore.LimitedFilterIsFlat | persisting/dldb/table.py:505-553 | With a limit it answers with as many matching rows of the flat table as the limit admits |
| PartitionedStore.OpenedForGroups | persisting/dldb/table.py:720-735 | Creating empty tables for the groups does not change what the operation leads to |
| PartitionedStore.WholeWrite | persisting/dldb/table.py:894-898 | Writing the groups, once their tables are open, is the whole operation |
| PartitionedStore.FilterMoves | persisting/dldb/table.py:530-551 | One partition of the limited loop either fills the limit with the final answer or leaves room |
| PartitionedStore.Table.constructor | persisting/dldb/table.py:638-668 | A new table object has opened nothing |
| PartitionedStore.Table.OpenOne | persisting/dldb/table.py:397-425 | Opens, creates or refuses one partition |
| PartitionedStore.Table.OpenTable | persisting/dldb/table.py:397-425 | Succeeds exactly when every partition can be opened or created, and changes no rows |
| PartitionedStore.Table.WriteTo | persisting/dldb/table.py:734-735 | One partition is written with its own rows, no other |
| PartitionedStore.Table.ApplyTo | persisting/dldb/table.py:895-898 | The given partitions are written, each once, and no others |
| PartitionedStore.Table.Write | persisting/dldb/table.py:720-735 | Add and upsert: the whole operation with its row counts in every partition, or an error that leaves all rows alone, and exactly when |
| PartitionedStore.Table.WriteGroups | persisting/dldb/table.py:894-898 | Opens or creates every group, then writes them all, or changes no rows |
| PartitionedStore.Table.DeleteRows | persisting/dldb/table.py:860-869 | Matching rows are gone from every partition, or from the named one, and every other row is there as often as before; naming a missing partition is an error |
| PartitionedStore.Table.ListPartitions | persisting/dldb/table.py:712-718 | Every existing partition once |
| PartitionedStore.Table.CountRows | persisting/dldb/table.py:737-747 | The number of rows of the flat table, or of those that belong to the named partition; naming a missing one is an error |
| PartitionedStore.Table.SumOpened | persisting/dldb/table.py:737-747 | The sizes of all opened tables add up to the flat table's |
| PartitionedStore.Table.QueryOne | persisting/dldb/table.py:526-548 | One partition's answer after offset and limit; an error exactly when it does not exist |
| PartitionedStore.PageIs | persisting/dldb/table.py:536-548 | Offset and limit cut out exactly the rows from the offset on, up to the limit |
| PartitionedStore.Table.Filter | persisting/dldb/table.py:505-553 | The first `limit` rows of all answers over the given partitions, or all there are, in sorted order; offset on one partition only; when a missing partition is an error |
| PartitionedStore.Table.FilterAll | persisting/dldb/table.py:526-553 | The shrinking limit yields the first `limit` rows of the concatenated full answers |
| Trajectory.LinesOfJoin | crates/persisting-dlcapt/src/tlv.rs:333-355 | Splitting joined single lines gives the lines back |
| Trajectory.TerminatorIsLine | crates/persisting-dlcapt/src/tlv.rs:333-355 | A terminator inside the preamble would have to be one of its lines |
| Trajectory.Quote | crates/persisting-dlcapt/src/tlv.rs:300-331 | A quoted value stays on one line, whatever it contains |
| TrajectoryIdentity.DecimalReadsBack | crates/persisting-dlcapt/src/tlv.rs:300-331 | A printed turn count reads back as the number |
| TrajectoryIdentity.QuoteLosesNothing | crates/persisting-dlcapt/src/tlv.rs:300-302 | Different sessions or agents are quoted differently |
| TrajectoryIdentity.FileIdentifies | crates/persisting-dlcapt/src/tlv.rs:300-331 | A file's content determines its session, agent, turn count and all that follows the preamble |
| TrajectoryIdentity.PreambleStates | crates/persisting-dlcapt/src/tlv.rs:300-331 | The preamble names session, agent and turn count in their lines |
| Trajectory.PreambleFound | crates/persisting-dlcapt/src/tlv.rs:333-355 | The first terminator of a document is the preamble's own, whatever follows |
| Trajectory.OnlyTurnsLineChanges | crates/persisting-dlcapt/src/tlv.rs:333-355 | Among the preamble's lines only the turn count is rewritten |
| Trajectory.RefreshReplacesTurns | crates/persisting-dlcapt/src/tlv.rs:333-355 | A refresh replaces the turn count and nothing else, for every session, agent and body |
| Trajectory.RefreshFailsExactly | crates/persisting-dlcapt/src/tlv.rs:333-336 | A refresh of any file fails exactly when the file has no terminator |
| Trajectory.RefreshKeepsRest | crates/persisting-dlcapt/src/tlv.rs:333-355 | In any file everything from the first terminator on stays; only what comes before is renewed |
| Trajectory.ReturnDropped | crates/persisting-dlcapt/src/tlv.rs:341 | A carriage return before a line break is not part of the line |
| Trajectory.FileFollowsTurns | crates/persisting-dlcapt/src/tlv.rs:149-198 | Read-and-rewrite after any turns leaves the latest preamble followed by all blocks |
| Trajectory.FileIsPreambleAndBlocks | crates/persisting-dlcapt/src/tlv.rs:149-198 | The same for the preamble and refresh of the source, whatever the turns contain |
| Trajectory.TurnPrinted | crates/persisting-dlcapt/src/tlv.rs:149-178 | A turn is printed to the letter as the user's block, then the assistant's, whoever said nothing left out |
| Trajectory.AppendFailsExactly | crates/persisting-dlcapt/src/tlv.rs:177-195 | Which appends are refused, and why, exactly |
| Trajectory.DocumentsRefreshOnlyTurns | crates/persisting-dlcapt/src/tlv.rs:300-355 | The source's preamble and refresh fit together |
| Fences.FindClosing | pchronicle-web/src/components.rs:58-61 | The first closing line from a position on |
| Fences.TryComponent | pchronicle-web/src/components.rs:55-78 | The component of a closed fence with a readable payload, or none |
| Fences.ParseStep | pchronicle-web/src/components.rs:54-81 | One turn of the loop accounts for exactly the lines it passes |
| RichBlocks.ParseRichBlocks | pchronicle-web/src/components.rs:49-84 | The loop yields the blocks of the recursive reading of the lines |
| Fences.ParseAll | pchronicle-web/src/components.rs:53-83 | For any grammar of fences the loop with its pending text equals the recursive reading |
| Fences.UnreadFenceIsText | pchronicle-web/src/components.rs:62-80 | A fence that is never closed or cannot be read is text like any other line |
| Fences.ClosingIsFirst | pchronicle-web/src/components.rs:58-61 | The closing line is the first that can close |
| RichBlocks.TextThenRest | pchronicle-web/src/components.rs:49-92 | Lines that open no fence only add to the text |
| RichBlocks.ComponentParses | pchronicle-web/src/components.rs:42-84 | A printed fence followed by anything is read as its component |
| RichBlocks.DocumentParses | pchronicle-web/src/components.rs:42-92 | A printed document parses to its blocks after any pending text |
| RichBlocks.RoundTrip | pchronicle-web/src/components.rs:42-92 | Printing printable blocks and parsing the document gives the blocks back |
| RichBlocks.FenceText | pchronicle-web/src/components.rs:42-47 | The text of a fence, to the letter |
| Text.SplitKeepsText | pchronicle-web/src/components.rs:50 | The lines of a text, with their breaks, concatenate to it |
| Text.SplitConcat | pchronicle-web/src/components.rs:50 | Text ending in a line break splits independently of what follows |
| ResponsesInput.GroupingKeepsMeaning | crates/persisting-gateway/src/understanding.rs:379-430 | One message per unbroken run of calls says, by role, name and part, what the items say |
| ResponsesInput.OneMessagePerRun | crates/persisting-gateway/src/understanding.rs:379-430 | There is one message for each call that follows no call and one for each other item with something to say |
| ResponsesInput.LoopGroups | crates/persisting-gateway/src/understanding.rs:379-430 | The pending list, flushed at the end, yields exactly one message per run, placed before what follows |
| ResponsesInput.ParseInput | crates/persisting-gateway/src/understanding.rs:379-430 | The messages are the grouped items and keep their meaning |
| ControlMachine.NextConsistent | crates/persisting-agentctl/src/lib.rs:74-128 | One call keeps the history consistent, when it succeeds and with which error it fails, and that a report of success leads to Applied and one of failure to Failed |
| ControlMachine.ReachableIsConsistent | crates/persisting-agentctl/src/lib.rs:58-128 | In every run the history is a connected chain from Requested of at most two transitions ending in the current state |
| ControlMachine.StateIsWhatWasReported | crates/persisting-agentctl/src/lib.rs:74-183 | In every run the state is Applied exactly after a report of success and Failed after one of failure, with the effect of the one decision |
| ControlMachine.ConsistentIsReachable | crates/persisting-agentctl/src/lib.rs:58-128 | Every such chain is reached by some calls |
| ControlMachine.HistoryGrows | crates/persisting-agentctl/src/lib.rs:116-128 | The history only grows, so the accepted decision stands |
| ControlMachine.Control.constructor | crates/persisting-agentctl/src/lib.rs:59-64 | A new machine is Requested with no history |
| ControlMachine.Control.Commit | crates/persisting-agentctl/src/lib.rs:116-128 | A transition is recorded exactly when it starts in the current state |
| ControlMachine.Control.AuthorizeWith | crates/persisting-agentctl/src/lib.rs:74-96 | The authorize step for any controller's answer: exactly when it succeeds, the state and history it leaves; a refused call changes nothing |
| ControlMachine.Control.Report | crates/persisting-agentctl/src/lib.rs:98-114 | The applied and failed steps: Applied for success, Failed for failure, with the effect of the decision; a refused call changes nothing |
| NetworkPolicy.EvaluateIsStaged | crates/persisting-agentctl/src/lib.rs:386-428 | The outcome named by which stages some single rule passes |
| NetworkPolicy.PassesByOneRule | crates/persisting-agentctl/src/lib.rs:386-428 | A request passes exactly when one single rule passes every stage |
| NetworkPolicy.OrderIsIrrelevant | crates/persisting-agentctl/src/lib.rs:386-428 | Order and repetition of rules do not matter, not even to the failure reported |
| NetworkPolicy.MoreRulesPassMore | crates/persisting-agentctl/src/lib.rs:386-428 | More rules never make a passing request fail |
| NetworkPolicy.HostRulesStayPublic | crates/persisting-agentctl/src/lib.rs:458-482 | Host-name rules without the private opt-in let only publicly routed addresses through |
| AddressBlocks.PublicExactly | crates/persisting-agentctl/src/lib.rs:577-594 | An IPv4 address is public exactly outside the listed blocks |
| AddressBlocks.PrivateBlocks | crates/persisting-agentctl/src/lib.rs:472-475 | The private IPv4 addresses are the three blocks of section 3 of RFC 1918 |
| AddressBlocks.PublicV6Exactly | crates/persisting-agentctl/src/lib.rs:595-608 | An IPv6 address that is not mapped is public exactly in 2000::/3 without four blocks |
| AddressBlocks.PrivateV6Exactly | crates/persisting-agentctl/src/lib.rs:476-481 | It can be opted in exactly if it is ::1 or in fc00::/7 |
| AddressBlocks.MappedAlike | crates/persisting-agentctl/src/lib.rs:595-598 | A mapped address is classified as the IPv4 address it holds |
| AddressBlocks.ClassesDisjoint | crates/persisting-agentctl/src/lib.rs:472-482 | No address is public and private at once |
| AddressBlocks.WildcardExactly | crates/persisting-agentctl/src/lib.rs:436-440 | A wildcard matches exactly the hosts that end in its suffix after a dot |
| AddressBlocks.WildcardNeedsDot | crates/persisting-agentctl/src/lib.rs:436-440 | Neither the suffix itself nor a name that merely ends in its letters matches |
| AddressBlocks.AddressRulesExactly | crates/persisting-agentctl/src/lib.rs:441-466 | A rule for an address or a range lets a request reach the addresses it names and no others |
| AddressBlocks.EmptyMeansAny | crates/persisting-agentctl/src/lib.rs:450-456 | An empty list of ports or transports admits any; otherwise the request must name a member |
| NetworkPolicy.CompileKeepsMatches | crates/persisting-agentctl/src/lib.rs:501-518 | Compiling fails exactly on port zero; otherwise ports come out strictly ascending and the rule matches the same requests |
| NetworkPolicy.AuthorizeAdmits | crates/persisting-agentctl/src/lib.rs:213-267 | Authorization allows exactly: no deny rule matches, and the host is trusted or the capability or one rule admits it |
| NetworkPolicy.DeniedByOneRule | crates/persisting-agentctl/src/lib.rs:213-216 | Explicit denial is the reason exactly when one deny rule matches host, port and transport |
| NetworkPolicy.ReasonNamesStage | crates/persisting-agentctl/src/lib.rs:213-267 | Where the rules decide, each reason is given exactly when its stage is the first that no single rule passes |
| NetworkPolicy.RulesAreMonotone | crates/persisting-agentctl/src/lib.rs:213-267 | Allow rules never turn an allow into a deny, deny rules never a deny into an allow |

## Left out

- Run control: the source reads its clock before taking the lock; a model call takes the clock reading and the effect together, for any readings.
- Run control: `get_run`, `list_runs`, `get_attempt` and trajectory appends, the process and HTTP clients, mutex poisoning and panics.
- The checkpoint server, the supervisor and the remote-procedure types of the agent control crate.
- LanceLog.LanceBackend.GetStream: models the stream that does not wait, drained while nothing changes; `LogStream` models one turn of either kind of stream with the queue changing between turns, a timeout being an argument.
- Queue: `clear`, `reset_consumption`, statistics, the automatic flush timer, the memory and metrics backends and the distributed mode.
- Queue: Arrow type inference, pickling, failing reads, and negative indices, offsets or limits; rows are opaque values.
- Consumption: `Consumption.Step` treats what a call sampled as any choice from its ready list; that the sampler's choice is one is `GetMeta` and `BatchIsReady`.
- Keys: `kv_list` and `kv_clear`; a tag is an opaque value, the empty one standing for none.
- KeyIndex.KVInterface.KvPut: runs on flushes that nothing interrupts, as do the other operations of the key interface; `KeysStayRight` carries the index over to runs with flushes in flight.
- Envelope: the legacy pickled payload and the header codec itself, which is a parameter; a checksum is carried and not verified, as in the source.
- SequenceSink: the sink that only numbers records without a callback, the session and agent fields written into a record, and a callback that panics, which poisons the mutex of its key.
- Tables: partition conditions, `update`, schema changes, dropping partitions, null partition values and null join cells, table-name prefixes, and the order of rows after an upsert.
- PartitionedStore.Table.ListPartitions: returns the partitions in an arbitrary order, since the database promises none.
- PartitionedStore.Table.Filter: a limit of zero or less given to the query engine is not modelled beyond taking no rows.
- FlushProtocol.SingleFlightKeepsOrder: speaks of runs without cancellation; what cancellation loses is `OnlyCancelledRowsAreLost`.
- PartitionedStore.RunAgrees: upserts in a run carry each key once, since the effect of repeated source keys is the storage engine's choice.
- Trajectory: the metadata inside a block header, the file layout of sessions, and the range check of turn numbers; a header is any text.
- RichBlocks.RoundTrip: payloads are on one line and are not themselves a closing fence, as compact JSON objects are.
- Responses input: field lookup in JSON items, string input, instructions and tools; an item is its kind and its parts.
- Network rules: parsing and normalizing host names, patterns and address ranges; a range is the set of addresses it contains.
- Model access rules.
