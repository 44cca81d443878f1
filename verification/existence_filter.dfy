/**
  The name-existence filter, as far as the initializer can observe it: the sequence of
  `Add` calls made on it and its current checkpoint. The probabilistic membership
  behaviour of the filter itself is not modelled; `Add` is recorded, not interpreted.
 */
module ExistenceFilter {

  /** A 64-bit stream hash, as stored in an index entry (a C# `ulong`). */
  type StreamHash = h: int | 0 <= h < 0x1_0000_0000_0000_0000

  /** The checkpoint value of a filter that has never been checkpointed. */
  const NoCheckpoint: int := -1

  /** One call of `Add` on the filter: with a stream hash, or with a stream name. */
  datatype AddOp = AddHash(hash: StreamHash) | AddName(name: string)

  /** The filter state: every `Add` made so far, in call order, and the current checkpoint. */
  datatype Filter = Filter(adds: seq<AddOp>, checkpoint: int) {

    /** The filter after one more `Add`. */
    function Add(op: AddOp): Filter {
      this.(adds := adds + [op])
    }

    /** The filter after an assignment to its checkpoint. */
    function WithCheckpoint(c: int): Filter {
      this.(checkpoint := c)
    }
  }

  /** The `Add` calls that add each hash of `hs`, in order. */
  function HashAdds(hs: seq<StreamHash>): (ops: seq<AddOp>)
    ensures |ops| == |hs|
    ensures forall i :: 0 <= i < |hs| ==> ops[i] == AddHash(hs[i])
    decreases |hs|
  {
    if |hs| == 0 then [] else HashAdds(hs[..|hs| - 1]) + [AddHash(hs[|hs| - 1])]
  }
}
