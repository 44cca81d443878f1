/**
  The Log V2 stream-existence-filter initializer. It repopulates a name-existence filter
  in two phases: from the table index when the filter has never been checkpointed, and
  then from the transaction log, starting at the filter's checkpoint. A stream hash may be
  added more than once; the filter checkpoint is a log position.
 */
module StreamExistenceFilterInitializer {
  import opened Outcomes
  import opened ExistenceFilter
  import opened Index
  import opened TransactionLog

  /** The message of the error raised when the index holds a V1 table. */
  const NotSupportedV1Message: string :=
    "The Stream Existence Filter is not supported with V1 index files. Please disable the filter by setting StreamExistenceFilterSize to 0, or rebuild the indexes."

  /** The exceptions the initializer raises. */
  datatype InitError =
    | ArgumentNull(paramName: string)
    | NotSupported(message: string)
    | NullReference

  /**
    How an initialization step ends. The filter is a shared mutable object, so the state
    it is left in is observable whether the step completes or throws.
   */
  datatype Outcome =
    | Completed(filter: Filter)
    | Thrown(filter: Filter, error: InitError)

  /**
    An initializer: its transaction-file reader, which may be missing because construction
    does not check it, and the table index it reads.
   */
  datatype Initializer = Initializer(tfReader: Option<TFReader>, tableIndex: TableIndex)

  /** Construction: the table index must be present; the reader factory is not checked. */
  function New(tfReader: Option<TFReader>, tableIndex: Option<TableIndex>): (r: Result<Initializer, InitError>)
    ensures r.Failure? <==> tableIndex.None?
    ensures r.Failure? ==> r.error == ArgumentNull("tableIndex")
    ensures r.Success? ==> r.value.tableIndex == tableIndex.value
    ensures r.Success? ==> r.value == Initializer(tfReader, tableIndex.value)
  {
    match tableIndex
    case None => Failure(ArgumentNull("tableIndex"))
    case Some(index) => Success(Initializer(tfReader, index))
  }

  /**
    Both phases in order: the log phase starts from the filter the index phase left. A
    missing reader is only noticed when the log phase asks for one, after the index phase.
   */
  function Initialize(init: Initializer, f: Filter): (r: Outcome)
    ensures r.Thrown? <==> InitializeFromIndex(f, init.tableIndex).Thrown? || init.tfReader.None?
    ensures InitializeFromIndex(f, init.tableIndex).Thrown? ==> r == InitializeFromIndex(f, init.tableIndex)
    ensures init.tfReader.None? && InitializeFromIndex(f, init.tableIndex).Completed? ==>
              r == Thrown(InitializeFromIndex(f, init.tableIndex).filter, NullReference)
    ensures f.adds <= r.filter.adds
  {
    match InitializeFromIndex(f, init.tableIndex)
    case Thrown(g, e) => Thrown(g, e)
    case Completed(g) =>
      match init.tfReader
      case None => Thrown(g, NullReference)
      case Some(reader) => Completed(InitializeFromLog(g, reader))
  }

  /**
    The index phase. It only runs on a filter without a checkpoint; it refuses an index
    with a V1 table before adding anything; otherwise it adds the hash of every entry that
    differs from the hash added last, and checkpoints at the index commit checkpoint when
    it saw at least one entry.
   */
  function InitializeFromIndex(f: Filter, index: TableIndex): (r: Outcome)
    ensures f.checkpoint != NoCheckpoint ==> r == Completed(f)
    ensures r.Thrown? <==> f.checkpoint == NoCheckpoint && HasV1Table(index.tables)
    ensures r.Thrown? ==> r.filter == f && r.error == NotSupported(NotSupportedV1Message)
    ensures f.adds <= r.filter.adds
    ensures r.filter.checkpoint == f.checkpoint || r.filter.checkpoint == index.commitCheckpoint
  {
    if f.checkpoint != NoCheckpoint then Completed(f)
    else if HasV1Table(index.tables) then Thrown(f, NotSupported(NotSupportedV1Message))
    else
      var (g, previousHash) := AddTables(index.tables, None, f);
      Completed(if previousHash.Some? then g.WithCheckpoint(index.commitCheckpoint) else g)
  }

  /** The outer loop of the index phase: every table in order, carrying the previous hash. */
  function AddTables(tables: seq<PTable>, previousHash: Option<StreamHash>, f: Filter)
    : (r: (Filter, Option<StreamHash>))
    ensures f.adds <= r.0.adds
    ensures r.0.checkpoint == f.checkpoint
    ensures previousHash.Some? ==> r.1.Some?
    decreases |tables|
  {
    if |tables| == 0 then (f, previousHash)
    else
      var (g, p) := AddEntries(tables[0].entries, previousHash, f);
      AddTables(tables[1..], p, g)
  }

  /** The inner loop of the index phase: every entry of one table, skipping a repeated hash. */
  function AddEntries(entries: seq<IndexEntry>, previousHash: Option<StreamHash>, f: Filter)
    : (r: (Filter, Option<StreamHash>))
    ensures f.adds <= r.0.adds
    ensures r.0.checkpoint == f.checkpoint
    ensures |entries| == 0 ==> r.1 == previousHash
    ensures |entries| > 0 ==> r.1 == Some(entries[|entries| - 1].stream)
    decreases |entries|
  {
    if |entries| == 0 then (f, previousHash)
    else
      var hash := entries[0].stream;
      if previousHash == Some(hash) then AddEntries(entries[1..], previousHash, f)
      else AddEntries(entries[1..], Some(hash), f.Add(AddHash(hash)))
  }

  /** Where the log phase starts reading: the filter checkpoint, or 0 when there is none. */
  function StartPosition(checkpoint: int): int {
    if checkpoint == NoCheckpoint then 0 else checkpoint
  }

  /** The log phase: reposition a reader at the start position and read to the first failure. */
  function InitializeFromLog(f: Filter, reader: TFReader): (r: Filter)
    ensures f.adds <= r.adds
  {
    ReadLoop(Reposition(reader, StartPosition(f.checkpoint)), f)
  }

  /**
    The read loop of the log phase. A prepare adds its stream name and moves the checkpoint
    to the record's post position; any other record is skipped; an unsuccessful read ends it.
   */
  function ReadLoop(lease: ReaderLease, f: Filter): (r: Filter)
    ensures f.adds <= r.adds
    ensures forall i :: |f.adds| <= i < |r.adds| ==> r.adds[i].AddName?
    decreases |lease.pending|
  {
    var (ok, result, next) := TryReadNextLogRecord(lease);
    if !ok then f
    else ReadLoop(next, ApplyRecord(f, result.logRecord, result.recordPostPosition))
  }

  /** The effect of one successfully read record: a prepare is added and checkpointed, others are skipped. */
  function ApplyRecord(f: Filter, record: LogRecord, recordPostPosition: int): Filter {
    match record
    case Prepare(streamId) => f.Add(AddName(streamId)).WithCheckpoint(recordPostPosition)
    case _ => f
  }

  /** One read of the loop: the result, whether it was successful, and the advanced lease. */
  function TryReadNextLogRecord(lease: ReaderLease): (r: (bool, SeqReadResult, ReaderLease))
    ensures r.0 <==> r.1.Success()
    ensures r.0 <==> |lease.pending| > 0 && lease.pending[0].Found?
    ensures r.0 ==> r.1 == lease.pending[0] && r.2.pending == lease.pending[1..]
  {
    var (result, next) := TryReadNext(lease);
    (result.Success(), result, next)
  }
}
