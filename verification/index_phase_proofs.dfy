/**
  Properties of the index phase: the nested loop over tables and entries adds exactly the
  concatenated entry hashes with runs of equal hashes collapsed, and checkpoints at the
  index commit checkpoint exactly when it saw an entry.
 */
module IndexPhaseProofs {
  import opened Outcomes
  import opened ExistenceFilter
  import opened Index
  import opened Runs
  import opened StreamExistenceFilterInitializer

  /**
    The entry loop, started with the last hash of an already processed prefix `done`
    and a filter holding that prefix's collapse, leaves the collapse of the extended prefix.
   */
  lemma {:induction false} AddEntriesCollapses(
    done: seq<StreamHash>, entries: seq<IndexEntry>, base: seq<AddOp>, f: Filter)
    requires f.adds == base + HashAdds(Collapse(done))
    ensures AddEntries(entries, LastOf(done), f).0.adds == base + HashAdds(Collapse(done + Streams(entries)))
    ensures AddEntries(entries, LastOf(done), f).1 == LastOf(done + Streams(entries))
    decreases |entries|
  {
    if |entries| == 0 {
      assert done + Streams(entries) == done;
    } else {
      var hash := entries[0].stream;
      var done' := done + [hash];
      var g := AddEntriesStep(done, entries, base, f);
      AddEntriesCollapses(done', entries[1..], base, g);
      assert Streams(entries) == [hash] + Streams(entries[1..]);
      AppendAssociates(done, [hash], Streams(entries[1..]));
    }
  }

  /**
    One iteration of the entry loop moves a filter holding the collapse of `done` to one
    holding the collapse of `done` extended by the first entry's hash.
   */
  lemma AddEntriesStep(done: seq<StreamHash>, entries: seq<IndexEntry>, base: seq<AddOp>, f: Filter)
    returns (g: Filter)
    requires |entries| > 0
    requires f.adds == base + HashAdds(Collapse(done))
    ensures AddEntries(entries, LastOf(done), f) ==
            AddEntries(entries[1..], LastOf(done + [entries[0].stream]), g)
    ensures g.adds == base + HashAdds(Collapse(done + [entries[0].stream]))
  {
    var hash := entries[0].stream;
    CollapseSnoc(done, hash);
    if LastOf(done) == Some(hash) {
      g := f;
    } else {
      g := f.Add(AddHash(hash));
      HashAddsSnoc(Collapse(done), hash);
    }
  }

  /** Adding one more hash at the end of the collapse adds one `AddHash` at the end. */
  lemma HashAddsSnoc(c: seq<StreamHash>, hash: StreamHash)
    ensures HashAdds(c + [hash]) == HashAdds(c) + [AddHash(hash)]
  {
    assert (c + [hash])[..|c|] == c;
  }

  /** The same for the table loop: the previous hash carries across table boundaries. */
  lemma {:induction false} AddTablesCollapses(
    done: seq<StreamHash>, tables: seq<PTable>, base: seq<AddOp>, f: Filter)
    requires f.adds == base + HashAdds(Collapse(done))
    ensures AddTables(tables, LastOf(done), f).0.adds == base + HashAdds(Collapse(done + AllStreams(tables)))
    ensures AddTables(tables, LastOf(done), f).1 == LastOf(done + AllStreams(tables))
    decreases |tables|
  {
    if |tables| == 0 {
      assert done + AllStreams(tables) == done;
    } else {
      var hs := Streams(tables[0].entries);
      AddEntriesCollapses(done, tables[0].entries, base, f);
      var step := AddEntries(tables[0].entries, LastOf(done), f);
      var done' := done + hs;
      var rest := AllStreams(tables[1..]);
      AddTablesCollapses(done', tables[1..], base, step.0);
      assert AddTables(tables, LastOf(done), f) == AddTables(tables[1..], LastOf(done'), step.0);
      AppendAssociates(done, hs, rest);
    }
  }

  /** Regrouping a concatenation; stated apart so the solver meets it outside the fold proof. */
  lemma AppendAssociates(a: seq<StreamHash>, b: seq<StreamHash>, c: seq<StreamHash>)
    ensures a + (b + c) == (a + b) + c
  {
  }

  /**
    From scratch and without V1 tables, the index phase appends the collapsed hashes of all
    entries and sets the checkpoint to the index commit checkpoint exactly when some entry
    exists; an index with no entries at all leaves the filter without a checkpoint.
   */
  lemma IndexPhaseFromScratch(f: Filter, index: TableIndex)
    requires f.checkpoint == NoCheckpoint
    requires !HasV1Table(index.tables)
    ensures var hashes := AllStreams(index.tables);
            InitializeFromIndex(f, index) ==
              Completed(Filter(f.adds + HashAdds(Collapse(hashes)),
                               if |hashes| > 0 then index.commitCheckpoint else NoCheckpoint))
  {
    assert f.adds == f.adds + HashAdds(Collapse([]));
    AddTablesCollapses([], index.tables, f.adds, f);
    assert [] + AllStreams(index.tables) == AllStreams(index.tables);
  }

  /**
    What the index phase adds, stated without the reference: never the same hash twice in
    a row, the hash of every entry of every table, and nothing that is not an entry hash.
   */
  lemma IndexPhaseAddsEachRunOnce(f: Filter, index: TableIndex)
    requires f.checkpoint == NoCheckpoint
    requires !HasV1Table(index.tables)
    ensures var added := InitializeFromIndex(f, index).filter.adds[|f.adds|..];
            && (forall i :: 0 < i < |added| ==> added[i - 1] != added[i])
            && (forall t, e :: t in index.tables && e in t.entries ==> AddHash(e.stream) in added)
            && (forall op :: op in added ==>
                  op.AddHash? && exists t, e :: t in index.tables && e in t.entries && e.stream == op.hash)
  {
    IndexPhaseFromScratch(f, index);
    var added := InitializeFromIndex(f, index).filter.adds[|f.adds|..];
    assert added == HashAdds(Collapse(AllStreams(index.tables)));
    CollapsedHashAddsCoverEntries(index.tables);
  }

  /** The adds of the collapsed hashes of `tables`, stated in terms of the tables' entries. */
  lemma CollapsedHashAddsCoverEntries(tables: seq<PTable>)
    ensures var added := HashAdds(Collapse(AllStreams(tables)));
            && (forall i :: 0 < i < |added| ==> added[i - 1] != added[i])
            && (forall t, e :: t in tables && e in t.entries ==> AddHash(e.stream) in added)
            && (forall op :: op in added ==>
                  op.AddHash? && exists t, e :: t in tables && e in t.entries && e.stream == op.hash)
  {
    var hashes := AllStreams(tables);
    var c := Collapse(hashes);
    var added := HashAdds(c);
    CollapseNoAdjacentDuplicates(hashes);
    forall i | 0 < i < |added| ensures added[i - 1] != added[i] {
      assert c[i - 1] != c[i];
    }
    forall t, e | t in tables && e in t.entries ensures AddHash(e.stream) in added {
      AllStreamsMembership(tables, e.stream);
      CollapseSameValues(hashes, e.stream);
      var k :| 0 <= k < |c| && c[k] == e.stream;
      assert added[k] == AddHash(e.stream);
    }
    forall op | op in added
      ensures op.AddHash? && exists t, e :: t in tables && e in t.entries && e.stream == op.hash
    {
      var k :| 0 <= k < |added| && added[k] == op;
      CollapseSameValues(hashes, c[k]);
      AllStreamsMembership(tables, c[k]);
    }
  }
}
