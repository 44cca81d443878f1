# Log V2 stream-existence-filter initializer, in Dafny

This project models the initializer that EventStore uses to rebuild the stream-existence
filter of a Log V2 database. The filter is a probabilistic name-existence filter. The
initializer fills it in two phases:

- **Index phase.** This phase runs only when the filter has no checkpoint (-1). It refuses
  an index that holds a V1 table. Otherwise it walks every index table in order and adds
  each entry's stream hash, skipping a hash equal to the one added last. The previous hash
  carries across table boundaries. If it saw at least one entry, it checkpoints the filter
  at the index commit checkpoint.
- **Log phase.** This phase repositions a transaction-file reader at the filter checkpoint,
  or at 0 when there is none. It reads forward until a read fails. For every prepare record
  it adds the record's stream name and moves the checkpoint to the record's post position.

The filter is modelled as the sequence of `Add` calls made on it plus its checkpoint
(`ExistenceFilter.Filter`). It is a sequence because a hash may be added more than once.
An exception becomes `Thrown(filter, error)`, which carries the state the shared filter
object is left in. The reader is a value `TFReader(readFrom)`: `readFrom(p)` is what
successive `TryReadNext` calls return after `Reposition(p)`. An exhausted sequence reads
as unsuccessful. Construction does not check the reader factory, so the initializer holds
an `Option<TFReader>`. A missing reader throws `NullReference` only when the log phase
asks for a reader, which happens after the index phase has already changed the filter.

Each phase is checked against a reference definition that is built independently of it:

- `Runs.Collapse` collapses runs of equal values. It is defined from the right, by
  comparing each value with its left neighbour in the input.
- `LogPhaseProofs.PrepareAdds` and `LogPhaseProofs.LastPreparePost` describe what the
  prepares read should produce. Both are also defined from the right.

Modules: `Outcomes` (Option, Result), `ExistenceFilter`, `Index` (table index),
`TransactionLog` (records, reads, reader), `Runs`, `StreamExistenceFilterInitializer`
(the class itself), `IndexPhaseProofs`, `LogPhaseProofs`, `InitializeProofs`.

## Model

| member | source | states |
|---|---|---|
| StreamExistenceFilterInitializer.New | src/EventStore.Core/LogV2/LogV2StreamExistenceFilterInitializer.cs:25-33 | Construction fails with an argument-null error exactly when the table index is missing. Otherwise the initializer keeps the given index and the given reader, which may itself be missing because it is not checked. |
| StreamExistenceFilterInitializer.Initialize | src/EventStore.Core/LogV2/LogV2StreamExistenceFilterInitializer.cs:35-38 | Initialization throws exactly when the index phase throws or the reader is missing. An index-phase throw is passed on unchanged, with the same error and the filter as it was. A missing reader throws NullReference with the filter the index phase left. Otherwise the filter only gains adds. |
| StreamExistenceFilterInitializer.InitializeFromIndex | src/EventStore.Core/LogV2/LogV2StreamExistenceFilterInitializer.cs:40-74 | A checkpointed filter is returned unchanged. From scratch, an index with a V1 table throws NotSupported with the fixed V1 message, and no hash has been added at that point. The adds only grow, and the checkpoint either stays or becomes the index commit checkpoint. |
| StreamExistenceFilterInitializer.AddTables | src/EventStore.Core/LogV2/LogV2StreamExistenceFilterInitializer.cs:58-68 | The table loop only appends to the adds and leaves the checkpoint alone. Once a previous hash exists it stays present. |
| StreamExistenceFilterInitializer.AddEntries | src/EventStore.Core/LogV2/LogV2StreamExistenceFilterInitializer.cs:60-67 | The entry loop only appends and leaves the checkpoint alone. Its previous hash ends as the last entry's hash, or as the incoming one for an empty table. |
| StreamExistenceFilterInitializer.InitializeFromLog | src/EventStore.Core/LogV2/LogV2StreamExistenceFilterInitializer.cs:76-94 | The log phase never removes an add. Its start position (0 when the checkpoint is -1, the checkpoint otherwise) is computed by `StartPosition`. The exact result is stated by `LogPhaseProofs.LogPhaseFromStartPosition`. |
| StreamExistenceFilterInitializer.ReadLoop | src/EventStore.Core/LogV2/LogV2StreamExistenceFilterInitializer.cs:84-94 | The read loop only appends adds, and every add it makes is a stream name, never a hash. The per-record effect is `ApplyRecord`. |
| StreamExistenceFilterInitializer.TryReadNextLogRecord | src/EventStore.Core/LogV2/LogV2StreamExistenceFilterInitializer.cs:97-100 | The read reports success exactly when the lease yields a found record. It then returns that record and advances the lease past it. |
| TransactionLog.SuccessfulReadsIsLongestFoundPrefix | src/EventStore.Core/LogV2/LogV2StreamExistenceFilterInitializer.cs:84-100 | The reads the loop consumes are a prefix of the lease's reads in which every read succeeded. The read right after that prefix, if any, is the first unsuccessful one. |
| IndexPhaseProofs.AddEntriesCollapses | src/EventStore.Core/LogV2/LogV2StreamExistenceFilterInitializer.cs:58-67 | Started with the last hash of the entries already seen, the entry loop extends the adds to the collapse of those entries followed by this table's hashes. |
| IndexPhaseProofs.AddEntriesStep | src/EventStore.Core/LogV2/LogV2StreamExistenceFilterInitializer.cs:61-66 | One iteration either skips an entry whose hash equals the last hash seen or adds it. Either way the filter afterwards holds the collapse of the hashes seen so far. |
| IndexPhaseProofs.AddTablesCollapses | src/EventStore.Core/LogV2/LogV2StreamExistenceFilterInitializer.cs:58-68 | The same holds for the table loop, with the previous hash carried across table boundaries. |
| IndexPhaseProofs.IndexPhaseFromScratch | src/EventStore.Core/LogV2/LogV2StreamExistenceFilterInitializer.cs:49-73 | From scratch without V1 tables, the phase appends the collapsed concatenation of all entries' hashes. It sets the checkpoint to the index commit checkpoint exactly when some entry exists, and leaves -1 otherwise. |
| IndexPhaseProofs.IndexPhaseAddsEachRunOnce | src/EventStore.Core/LogV2/LogV2StreamExistenceFilterInitializer.cs:58-68 | The index phase never adds the same hash twice in a row. It adds the hash of every entry of every table, and it adds nothing that is not an entry's hash. |
| LogPhaseProofs.ReadLoopFollowsPrepares | src/EventStore.Core/LogV2/LogV2StreamExistenceFilterInitializer.cs:84-94 | Entered with a filter that reflects the reads processed so far, the loop leaves one that reflects those reads followed by the lease's successful reads. |
| LogPhaseProofs.ReadStep | src/EventStore.Core/LogV2/LogV2StreamExistenceFilterInitializer.cs:85-93 | The effect of one successfully read record takes a filter reflecting the reads so far to one reflecting them plus that record. |
| LogPhaseProofs.ReadLoopSpec | src/EventStore.Core/LogV2/LogV2StreamExistenceFilterInitializer.cs:84-100 | The read loop appends the names of the prepares read before the first failure, in order. It ends with the checkpoint at the last such prepare's post position, or at its entry value. |
| LogPhaseProofs.LogPhaseFromStartPosition | src/EventStore.Core/LogV2/LogV2StreamExistenceFilterInitializer.cs:76-84 | The log phase reads from 0 when the checkpoint is -1 and from the checkpoint otherwise, and ends as the read loop over those reads does. |
| LogPhaseProofs.OtherRecordsIgnored | src/EventStore.Core/LogV2/LogV2StreamExistenceFilterInitializer.cs:85-93 | A successfully read record that is not a prepare changes neither the adds nor the checkpoint. |
| LogPhaseProofs.PrepareRecorded | src/EventStore.Core/LogV2/LogV2StreamExistenceFilterInitializer.cs:86-92 | A successfully read prepare appends its stream name and sets the checkpoint to its post position. |
| LogPhaseProofs.ScanStopsAtFirstFailure | src/EventStore.Core/LogV2/LogV2StreamExistenceFilterInitializer.cs:84-100 | Nothing after the first unsuccessful read affects the filter. |
| LogPhaseProofs.LogPhaseCheckpoint | src/EventStore.Core/LogV2/LogV2StreamExistenceFilterInitializer.cs:84-94 | The final checkpoint is the entry checkpoint if no prepare was read. Otherwise it is the post position of a prepare after which no other prepare was read. |
| LogPhaseProofs.LogPhaseAddsEveryPrepare | src/EventStore.Core/LogV2/LogV2StreamExistenceFilterInitializer.cs:85-93 | The log phase adds only stream names, and it adds the name of every prepare read before the first failure. |
| LogPhaseProofs.PrepareAddsNamesEveryPrepare | src/EventStore.Core/LogV2/LogV2StreamExistenceFilterInitializer.cs:86-90 | The reference adds the stream name of each prepare. Every op it adds is the stream name of some prepare among the reads. |
| LogPhaseProofs.LastPreparePostIsLastPrepare | src/EventStore.Core/LogV2/LogV2StreamExistenceFilterInitializer.cs:91 | The reference checkpoint is the post position of the last prepare, or the entry value when there is no prepare. |
| InitializeProofs.InitializeRejectsV1Tables | src/EventStore.Core/LogV2/LogV2StreamExistenceFilterInitializer.cs:51-56 | At the public entry point, with no checkpoint and a V1 table, initialization throws NotSupported with the fixed V1 message. The filter is untouched and the log is never read. |
| InitializeProofs.InitializeResumesFromCheckpoint | src/EventStore.Core/LogV2/LogV2StreamExistenceFilterInitializer.cs:41-45 | A checkpointed filter skips the index and gets exactly the prepares read from its checkpoint. |
| InitializeProofs.InitializeFromScratch | src/EventStore.Core/LogV2/LogV2StreamExistenceFilterInitializer.cs:35-94 | From scratch, the collapsed index hashes come first and then the prepares read from the checkpoint the index phase left, or from 0. The final checkpoint falls back to that index checkpoint. |
| InitializeProofs.InitializeFromScratchWithoutReader | src/EventStore.Core/LogV2/LogV2StreamExistenceFilterInitializer.cs:35-37 | Without a reader, a build from scratch still adds the collapsed index hashes and sets the index checkpoint before throwing NullReference. |
| InitializeProofs.PreviousHashSpansTables | src/EventStore.Core/LogV2/LogV2StreamExistenceFilterInitializer.cs:58-68 | For any two non-V1 tables whose entries (at least one in all) share one hash, the index phase adds that hash once and checkpoints at the index commit checkpoint. |

## Left out

- Logging: the Serilog calls are not modelled.
- Filter semantics: the bloom-filter behaviour and the hashing inside the filter are not modelled. `Add` is recorded as an operation, not as membership.
- Reader I/O: the PTable and reader-lease I/O and the disposal of the lease are not modelled. The reader factory and `Reposition` become the function `TFReader.readFrom`.
- Integer width: checkpoints, positions and the index commit checkpoint are unbounded integers. No 64-bit overflow arises in the code, which only compares and copies these values. Stream hashes are bounded to the 64-bit unsigned range.
- Index iteration: `IterateAllInOrder` on the index and on each table is taken as given sequences. How tables and entries are ordered is not part of this model.
- Record casts: the cast of a prepare-typed record to a prepare record cannot fail here. Records are a closed set of variants, so the cast failure the code could raise is not modelled.
- Log record contents: a record carries its kind, the stream name of a prepare, and the pre and post positions of the read. The initializer reads the kind, the stream name and the post position; the pre position is carried but not read. Other record payloads are not modelled.
- Other files: the replication-service test fixture, the gRPC feature discovery and the logger sink configuration lie outside this component.
