/**
  Properties of the log phase: starting at the filter checkpoint (or at 0), it adds the
  stream name of every prepare read before the first unsuccessful read, in order, and
  ends with the checkpoint at the post position of the last such prepare.
 */
module LogPhaseProofs {
  import opened ExistenceFilter
  import opened TransactionLog
  import opened StreamExistenceFilterInitializer

  /** Whether a read result is a successfully read prepare. */
  predicate IsPrepare(r: SeqReadResult) {
    r.Found? && r.logRecord.Prepare?
  }

  /** Reference: the `AddName` calls for the prepares among `rs`, in order. */
  function PrepareAdds(rs: seq<SeqReadResult>): seq<AddOp>
    decreases |rs|
  {
    if |rs| == 0 then []
    else
      var last := rs[|rs| - 1];
      PrepareAdds(rs[..|rs| - 1]) + if IsPrepare(last) then [AddName(last.logRecord.eventStreamId)] else []
  }

  /**
    Reference: the post position of the last prepare among `rs`, or `entry` when there is
    none. Found from the right, independently of the forward read loop.
   */
  function LastPreparePost(rs: seq<SeqReadResult>, entry: int): int
    decreases |rs|
  {
    if |rs| == 0 then entry
    else
      var last := rs[|rs| - 1];
      if IsPrepare(last) then last.recordPostPosition else LastPreparePost(rs[..|rs| - 1], entry)
  }

  /** The reference adds a name exactly for each prepare, and nothing but names. */
  lemma {:induction false} PrepareAddsNamesEveryPrepare(rs: seq<SeqReadResult>)
    ensures forall op :: op in PrepareAdds(rs) ==> op.AddName?
    ensures forall i :: 0 <= i < |rs| && IsPrepare(rs[i]) ==> AddName(rs[i].logRecord.eventStreamId) in PrepareAdds(rs)
    ensures forall op :: op in PrepareAdds(rs) ==>
              exists i :: 0 <= i < |rs| && IsPrepare(rs[i]) && op == AddName(rs[i].logRecord.eventStreamId)
    decreases |rs|
  {
    if |rs| > 0 {
      var init := rs[..|rs| - 1];
      PrepareAddsNamesEveryPrepare(init);
      forall op | op in PrepareAdds(rs)
        ensures exists i :: 0 <= i < |rs| && IsPrepare(rs[i]) && op == AddName(rs[i].logRecord.eventStreamId)
      {
        if op in PrepareAdds(init) {
          var i :| 0 <= i < |init| && IsPrepare(init[i]) && op == AddName(init[i].logRecord.eventStreamId);
          assert rs[i] == init[i];
        } else {
          assert IsPrepare(rs[|rs| - 1]);
        }
      }
      forall i | 0 <= i < |rs| - 1 && IsPrepare(rs[i])
        ensures AddName(rs[i].logRecord.eventStreamId) in PrepareAdds(rs)
      {
        assert rs[i] == init[i];
      }
    }
  }

  /**
    The reference checkpoint is the entry value when no prepare was read, and otherwise
    the post position of a prepare after which no other prepare was read.
   */
  lemma {:induction false} LastPreparePostIsLastPrepare(rs: seq<SeqReadResult>, entry: int)
    ensures (forall i :: 0 <= i < |rs| ==> !IsPrepare(rs[i])) ==> LastPreparePost(rs, entry) == entry
    ensures (exists i :: 0 <= i < |rs| && IsPrepare(rs[i])) ==>
              exists i :: 0 <= i < |rs| && IsPrepare(rs[i]) &&
                          LastPreparePost(rs, entry) == rs[i].recordPostPosition &&
                          forall j :: i < j < |rs| ==> !IsPrepare(rs[j])
    decreases |rs|
  {
    if |rs| > 0 {
      var init := rs[..|rs| - 1];
      LastPreparePostIsLastPrepare(init, entry);
      if !IsPrepare(rs[|rs| - 1]) {
        if forall i :: 0 <= i < |rs| ==> !IsPrepare(rs[i]) {
          assert forall i :: 0 <= i < |init| ==> !IsPrepare(init[i]);
        }
        if exists i :: 0 <= i < |rs| && IsPrepare(rs[i]) {
          var k :| 0 <= k < |rs| && IsPrepare(rs[k]);
          assert init[k] == rs[k];
          var i :| 0 <= i < |init| && IsPrepare(init[i]) &&
                   LastPreparePost(init, entry) == init[i].recordPostPosition &&
                   forall j :: i < j < |init| ==> !IsPrepare(init[j]);
          assert init[i] == rs[i];
          assert forall j :: i < j < |rs| ==> !IsPrepare(rs[j]) by {
            forall j | i < j < |rs| ensures !IsPrepare(rs[j]) {
              if j < |init| { assert init[j] == rs[j]; }
            }
          }
        }
      }
    }
  }

  /**
    The read loop, entered with a filter that already reflects the processed reads `done`,
    leaves a filter that reflects `done` followed by the successful reads of the lease.
   */
  lemma {:induction false} ReadLoopFollowsPrepares(
    done: seq<SeqReadResult>, rs: seq<SeqReadResult>, base: seq<AddOp>, entry: int, f: Filter)
    requires f == Filter(base + PrepareAdds(done), LastPreparePost(done, entry))
    ensures ReadLoop(ReaderLease(rs), f) ==
            Filter(base + PrepareAdds(done + SuccessfulReads(rs)),
                   LastPreparePost(done + SuccessfulReads(rs), entry))
    decreases |rs|
  {
    if |rs| == 0 || rs[0].NotFound? {
      assert done + SuccessfulReads(rs) == done;
    } else {
      var r := rs[0];
      var done' := done + [r];
      var g := ReadStep(done, r, base, entry, f);
      assert ReadLoop(ReaderLease(rs), f) == ReadLoop(ReaderLease(rs[1..]), g);
      ReadLoopFollowsPrepares(done', rs[1..], base, entry, g);
      assert done + SuccessfulReads(rs) == done' + SuccessfulReads(rs[1..]);
    }
  }

  /** One successful read moves a filter that reflects `done` to one that reflects `done + [r]`. */
  lemma ReadStep(done: seq<SeqReadResult>, r: SeqReadResult, base: seq<AddOp>, entry: int, f: Filter)
    returns (g: Filter)
    requires r.Found?
    requires f == Filter(base + PrepareAdds(done), LastPreparePost(done, entry))
    ensures g == ApplyRecord(f, r.logRecord, r.recordPostPosition)
    ensures g == Filter(base + PrepareAdds(done + [r]), LastPreparePost(done + [r], entry))
  {
    var done' := done + [r];
    assert done'[..|done'| - 1] == done;
    g := ApplyRecord(f, r.logRecord, r.recordPostPosition);
  }

  /** The read loop appends the prepares read before the first failure and checkpoints the last one. */
  lemma ReadLoopSpec(rs: seq<SeqReadResult>, f: Filter)
    ensures ReadLoop(ReaderLease(rs), f) ==
            Filter(f.adds + PrepareAdds(SuccessfulReads(rs)),
                   LastPreparePost(SuccessfulReads(rs), f.checkpoint))
  {
    assert f.adds + PrepareAdds([]) == f.adds;
    ReadLoopFollowsPrepares([], rs, f.adds, f.checkpoint, f);
    assert [] + SuccessfulReads(rs) == SuccessfulReads(rs);
  }

  /**
    The log phase reads from position 0 when the filter has no checkpoint and from the
    checkpoint otherwise, and ends as the read loop over those reads does.
   */
  lemma LogPhaseFromStartPosition(f: Filter, reader: TFReader)
    ensures var found := SuccessfulReads(reader.readFrom(if f.checkpoint == NoCheckpoint then 0 else f.checkpoint));
            InitializeFromLog(f, reader) ==
              Filter(f.adds + PrepareAdds(found), LastPreparePost(found, f.checkpoint))
  {
    ReadLoopSpec(reader.readFrom(StartPosition(f.checkpoint)), f);
  }

  /** A successfully read record other than a prepare changes neither the adds nor the checkpoint. */
  lemma OtherRecordsIgnored(rs: seq<SeqReadResult>, r: SeqReadResult, f: Filter)
    requires AllFound(rs)
    requires r.Found? && !r.logRecord.Prepare?
    ensures ReadLoop(ReaderLease(rs + [r]), f) == ReadLoop(ReaderLease(rs), f)
  {
    ReadLoopSpec(rs + [r], f);
    ReadLoopSpec(rs, f);
    SuccessfulReadsAppend(rs, [r]);
    SuccessfulReadsAppend(rs, []);
    assert rs + [] == rs;
    assert (rs + [r])[..|rs|] == rs;
  }

  /** A successfully read prepare appends its stream name and moves the checkpoint to its post position. */
  lemma PrepareRecorded(rs: seq<SeqReadResult>, r: SeqReadResult, f: Filter)
    requires AllFound(rs)
    requires r.Found? && r.logRecord.Prepare?
    ensures ReadLoop(ReaderLease(rs + [r]), f) ==
            ReadLoop(ReaderLease(rs), f).Add(AddName(r.logRecord.eventStreamId)).WithCheckpoint(r.recordPostPosition)
  {
    ReadLoopSpec(rs + [r], f);
    ReadLoopSpec(rs, f);
    SuccessfulReadsAppend(rs, [r]);
    SuccessfulReadsAppend(rs, []);
    assert rs + [] == rs;
    var g := ReadStep(rs, r, f.adds, f.checkpoint, ReadLoop(ReaderLease(rs), f));
  }

  /** Nothing after the first unsuccessful read is looked at. */
  lemma ScanStopsAtFirstFailure(rs: seq<SeqReadResult>, tail: seq<SeqReadResult>, f: Filter)
    requires AllFound(rs)
    ensures ReadLoop(ReaderLease(rs + [NotFound] + tail), f) == ReadLoop(ReaderLease(rs), f)
  {
    ReadLoopSpec(rs + [NotFound] + tail, f);
    ReadLoopSpec(rs, f);
    assert rs + [NotFound] + tail == rs + ([NotFound] + tail);
    SuccessfulReadsAppend(rs, [NotFound] + tail);
    SuccessfulReadsAppend(rs, []);
    assert rs + [] == rs;
  }

  /**
    The checkpoint the log phase ends with is the post position of the last prepare read
    before the first failure, or the checkpoint it started with when there was none.
   */
  lemma LogPhaseCheckpoint(f: Filter, reader: TFReader)
    ensures var found := SuccessfulReads(reader.readFrom(StartPosition(f.checkpoint)));
            var c := InitializeFromLog(f, reader).checkpoint;
            && ((forall i :: 0 <= i < |found| ==> !IsPrepare(found[i])) ==> c == f.checkpoint)
            && ((exists i :: 0 <= i < |found| && IsPrepare(found[i])) ==>
                  exists i :: 0 <= i < |found| && IsPrepare(found[i]) && c == found[i].recordPostPosition &&
                              forall j :: i < j < |found| ==> !IsPrepare(found[j]))
  {
    LogPhaseFromStartPosition(f, reader);
    LastPreparePostIsLastPrepare(SuccessfulReads(reader.readFrom(StartPosition(f.checkpoint))), f.checkpoint);
  }

  /**
    The log phase adds only stream names, and adds the name of every prepare read before
    the first failure.
   */
  lemma LogPhaseAddsEveryPrepare(f: Filter, reader: TFReader)
    ensures var found := SuccessfulReads(reader.readFrom(StartPosition(f.checkpoint)));
            var added := InitializeFromLog(f, reader).adds[|f.adds|..];
            && (forall op :: op in added ==> op.AddName?)
            && (forall i :: 0 <= i < |found| && IsPrepare(found[i]) ==>
                  AddName(found[i].logRecord.eventStreamId) in added)
  {
    var found := SuccessfulReads(reader.readFrom(StartPosition(f.checkpoint)));
    LogPhaseFromStartPosition(f, reader);
    assert InitializeFromLog(f, reader).adds[|f.adds|..] == PrepareAdds(found);
    PrepareAddsNamesEveryPrepare(found);
  }
}
