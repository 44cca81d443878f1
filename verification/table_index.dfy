/**
  The table index as the initializer reads it: the index tables in order, each a run of
  entries in order, plus the commit checkpoint the index has been built up to.
 */
module Index {
  import opened ExistenceFilter

  /** The on-disk format versions of an index table. */
  datatype PTableVersion = IndexV1 | IndexV2 | IndexV3 | IndexV4

  /** One index entry: the hash of its stream, the event number and the log position. */
  datatype IndexEntry = IndexEntry(stream: StreamHash, version: int, position: int)

  /** One index table: its format version and its entries in iteration order. */
  datatype PTable = PTable(version: PTableVersion, entries: seq<IndexEntry>)

  /** The whole index: every table in iteration order and the index commit checkpoint. */
  datatype TableIndex = TableIndex(tables: seq<PTable>, commitCheckpoint: int)

  /** Whether some table of `tables` is in the V1 format. */
  predicate HasV1Table(tables: seq<PTable>) {
    exists i :: 0 <= i < |tables| && tables[i].version == IndexV1
  }

  /** The stream hashes of `entries`, in order. */
  function Streams(entries: seq<IndexEntry>): (hs: seq<StreamHash>)
    ensures |hs| == |entries|
    ensures forall i :: 0 <= i < |entries| ==> hs[i] == entries[i].stream
    decreases |entries|
  {
    if |entries| == 0 then [] else [entries[0].stream] + Streams(entries[1..])
  }

  /** The stream hashes of every entry of every table, tables in order, entries in order. */
  function AllStreams(tables: seq<PTable>): seq<StreamHash>
    decreases |tables|
  {
    if |tables| == 0 then [] else Streams(tables[0].entries) + AllStreams(tables[1..])
  }

  /** A hash occurs in the concatenated entries exactly when some entry of some table has it. */
  lemma {:induction false} AllStreamsMembership(tables: seq<PTable>, h: StreamHash)
    ensures h in AllStreams(tables) <==>
            exists t, e :: t in tables && e in t.entries && e.stream == h
    decreases |tables|
  {
    if |tables| > 0 {
      AllStreamsMembership(tables[1..], h);
      var hs := Streams(tables[0].entries);
      if h in hs {
        var k :| 0 <= k < |hs| && hs[k] == h;
        assert tables[0] in tables && tables[0].entries[k] in tables[0].entries;
      }
      if exists t, e :: t in tables && e in t.entries && e.stream == h {
        var t, e :| t in tables && e in t.entries && e.stream == h;
        if t == tables[0] {
          var k :| 0 <= k < |t.entries| && t.entries[k] == e;
          assert hs[k] == h;
        } else {
          assert t in tables[1..];
        }
      }
    }
  }
}
