/**
  The transaction log as a sequential reader sees it: a reader that can be repositioned
  and then yields read results one at a time until a read is unsuccessful.
 */
module TransactionLog {

  /** A log record, as a closed set of variants; only prepares carry a stream name. */
  datatype LogRecord =
    | Prepare(eventStreamId: string)
    | Commit
    | System

  /** The outcome of one `TryReadNext`: nothing found, or a record with its pre and post positions. */
  datatype SeqReadResult =
    | NotFound
    | Found(logRecord: LogRecord, recordPrePosition: int, recordPostPosition: int)
  {
    predicate Success() {
      Found?
    }
  }

  /**
    A transaction-file reader. `readFrom(p)` is what successive `TryReadNext` calls return
    after `Reposition(p)`; once the sequence is exhausted every further read is unsuccessful.
   */
  datatype TFReader = TFReader(readFrom: int -> seq<SeqReadResult>)

  /** A reader lease positioned somewhere in the log: the reads it still has to give. */
  datatype ReaderLease = ReaderLease(pending: seq<SeqReadResult>)

  /** A lease on `reader`, repositioned to `position`. */
  function Reposition(reader: TFReader, position: int): ReaderLease {
    ReaderLease(reader.readFrom(position))
  }

  /** One sequential read: the next result, and the lease advanced past it. */
  function TryReadNext(lease: ReaderLease): (r: (SeqReadResult, ReaderLease))
    ensures |lease.pending| == 0 ==> r.0 == NotFound && r.1 == lease
    ensures |lease.pending| > 0 ==> r.0 == lease.pending[0] && r.1.pending == lease.pending[1..]
  {
    if |lease.pending| == 0 then (NotFound, lease)
    else (lease.pending[0], ReaderLease(lease.pending[1..]))
  }

  /** Whether every read of `rs` was successful. */
  predicate AllFound(rs: seq<SeqReadResult>) {
    forall i :: 0 <= i < |rs| ==> rs[i].Found?
  }

  /** The reads of `rs` up to, and not including, the first unsuccessful one. */
  function SuccessfulReads(rs: seq<SeqReadResult>): seq<SeqReadResult>
    decreases |rs|
  {
    if |rs| == 0 || rs[0].NotFound? then [] else [rs[0]] + SuccessfulReads(rs[1..])
  }

  /** The successful reads are the longest prefix of the reads in which every read succeeded. */
  lemma {:induction false} SuccessfulReadsIsLongestFoundPrefix(rs: seq<SeqReadResult>)
    ensures SuccessfulReads(rs) <= rs
    ensures AllFound(SuccessfulReads(rs))
    ensures |SuccessfulReads(rs)| == |rs| || rs[|SuccessfulReads(rs)|].NotFound?
    decreases |rs|
  {
    if |rs| > 0 && rs[0].Found? {
      SuccessfulReadsIsLongestFoundPrefix(rs[1..]);
      var rest := SuccessfulReads(rs[1..]);
      assert SuccessfulReads(rs) == [rs[0]] + rest;
      assert rs == [rs[0]] + rs[1..];
    }
  }

  /** Successful reads followed by more reads: the successful prefix runs on into the rest. */
  lemma {:induction false} SuccessfulReadsAppend(rs: seq<SeqReadResult>, tail: seq<SeqReadResult>)
    requires AllFound(rs)
    ensures SuccessfulReads(rs + tail) == rs + SuccessfulReads(tail)
    decreases |rs|
  {
    if |rs| == 0 {
      assert rs + tail == tail;
    } else {
      var rest := rs[1..];
      assert AllFound(rest) by {
        forall i | 0 <= i < |rest| ensures rest[i].Found? {
          assert rest[i] == rs[i + 1];
        }
      }
      SuccessfulReadsAppend(rest, tail);
      var whole := rs + tail;
      assert whole[0] == rs[0];
      assert whole[1..] == rest + tail;
      assert rs == [rs[0]] + rest;
    }
  }
}
