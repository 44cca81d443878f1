/**
  Properties of the whole initialization: the index phase runs first, and the log phase
  continues from the checkpoint the index phase leaves behind.
 */
module InitializeProofs {
  import opened ExistenceFilter
  import opened Index
  import opened TransactionLog
  import opened Runs
  import opened StreamExistenceFilterInitializer
  import opened IndexPhaseProofs
  import opened LogPhaseProofs

  /**
    With no checkpoint and a V1 table, initialization throws NotSupported with the filter
    untouched, and the log is never read.
   */
  lemma InitializeRejectsV1Tables(init: Initializer, f: Filter)
    requires f.checkpoint == NoCheckpoint
    requires HasV1Table(init.tableIndex.tables)
    ensures Initialize(init, f) == Thrown(f, NotSupported(NotSupportedV1Message))
  {
  }

  /** A checkpointed filter skips the index and resumes reading the log at its checkpoint. */
  lemma InitializeResumesFromCheckpoint(init: Initializer, f: Filter)
    requires f.checkpoint != NoCheckpoint
    requires init.tfReader.Some?
    ensures var found := SuccessfulReads(init.tfReader.value.readFrom(f.checkpoint));
            Initialize(init, f) ==
              Completed(Filter(f.adds + PrepareAdds(found), LastPreparePost(found, f.checkpoint)))
  {
    LogPhaseFromStartPosition(f, init.tfReader.value);
  }

  /**
    From scratch: the collapsed index hashes are added first, then the names of the prepares
    read from the index commit checkpoint (from 0 when the index has no entries), and the
    final checkpoint is the last such prepare's post position, falling back to the index
    commit checkpoint, or to no checkpoint for an index without entries.
   */
  lemma InitializeFromScratch(init: Initializer, f: Filter)
    requires f.checkpoint == NoCheckpoint
    requires !HasV1Table(init.tableIndex.tables)
    requires init.tfReader.Some?
    ensures var hashes := AllStreams(init.tableIndex.tables);
            var indexCheckpoint := if |hashes| > 0 then init.tableIndex.commitCheckpoint else NoCheckpoint;
            var start := if indexCheckpoint == NoCheckpoint then 0 else indexCheckpoint;
            var found := SuccessfulReads(init.tfReader.value.readFrom(start));
            Initialize(init, f) ==
              Completed(Filter(f.adds + HashAdds(Collapse(hashes)) + PrepareAdds(found),
                               LastPreparePost(found, indexCheckpoint)))
  {
    IndexPhaseFromScratch(f, init.tableIndex);
    LogPhaseFromStartPosition(InitializeFromIndex(f, init.tableIndex).filter, init.tfReader.value);
  }

  /**
    Without a reader, a build from scratch still runs the whole index phase: the collapsed
    hashes are added and the checkpoint set before the missing reader throws.
   */
  lemma InitializeFromScratchWithoutReader(init: Initializer, f: Filter)
    requires f.checkpoint == NoCheckpoint
    requires !HasV1Table(init.tableIndex.tables)
    requires init.tfReader.None?
    ensures var hashes := AllStreams(init.tableIndex.tables);
            Initialize(init, f) ==
              Thrown(Filter(f.adds + HashAdds(Collapse(hashes)),
                            if |hashes| > 0 then init.tableIndex.commitCheckpoint else NoCheckpoint),
                     NullReference)
  {
    IndexPhaseFromScratch(f, init.tableIndex);
  }

  /**
    The previous hash carries across tables: two tables whose entries, at least one in
    all, share one hash lead to a single add and a checkpoint at the index commit checkpoint.
   */
  lemma PreviousHashSpansTables(f: Filter, t1: PTable, t2: PTable, h: StreamHash, commitCheckpoint: int)
    requires f.checkpoint == NoCheckpoint
    requires t1.version != IndexV1 && t2.version != IndexV1
    requires forall e :: e in t1.entries ==> e.stream == h
    requires forall e :: e in t2.entries ==> e.stream == h
    requires |t1.entries| + |t2.entries| > 0
    ensures InitializeFromIndex(f, TableIndex([t1, t2], commitCheckpoint)) ==
            Completed(Filter(f.adds + [AddHash(h)], commitCheckpoint))
  {
    var index := TableIndex([t1, t2], commitCheckpoint);
    assert !HasV1Table(index.tables) by {
      assert forall i :: 0 <= i < |index.tables| ==> index.tables[i] in {t1, t2};
    }
    IndexPhaseFromScratch(f, index);
    TwoTablesSingleRun(t1, t2, h);
    CollapseSingleRun(AllStreams(index.tables), h);
  }

  /** The concatenated hashes of two tables whose entries all have hash `h` are all `h`. */
  lemma TwoTablesSingleRun(t1: PTable, t2: PTable, h: StreamHash)
    requires forall e :: e in t1.entries ==> e.stream == h
    requires forall e :: e in t2.entries ==> e.stream == h
    ensures |AllStreams([t1, t2])| == |t1.entries| + |t2.entries|
    ensures forall i :: 0 <= i < |AllStreams([t1, t2])| ==> AllStreams([t1, t2])[i] == h
  {
    var hs1, hs2 := Streams(t1.entries), Streams(t2.entries);
    assert [t1, t2][1..] == [t2];
    assert [t2][1..] == [];
    assert AllStreams([t2]) == hs2 + [];
    assert AllStreams([t1, t2]) == hs1 + hs2;
    forall i | 0 <= i < |hs1| ensures hs1[i] == h {
      assert t1.entries[i] in t1.entries;
    }
    forall i | 0 <= i < |hs2| ensures hs2[i] == h {
      assert t2.entries[i] in t2.entries;
    }
  }
}
