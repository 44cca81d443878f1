/**
  Runs of equal adjacent values, and the sequence left when every run is collapsed to a
  single value. This is the reference the index phase of the initializer is checked against.
 */
module Runs {
  import opened Outcomes

  /** No two neighbouring values of `s` are equal. */
  predicate NoAdjacentDuplicates<T(==)>(s: seq<T>) {
    forall i :: 0 < i < |s| ==> s[i - 1] != s[i]
  }

  /** The last value of `s`, if there is one. */
  function LastOf<T>(s: seq<T>): (r: Option<T>)
    ensures r.Some? <==> |s| > 0
    ensures |s| > 0 ==> r.value == s[|s| - 1]
  {
    if |s| == 0 then None else Some(s[|s| - 1])
  }

  /**
    `s` with every run of equal adjacent values replaced by one copy: a value is kept
    exactly when it differs from its neighbour on the left in `s`.
   */
  function Collapse<T(==)>(s: seq<T>): (r: seq<T>)
    ensures |r| <= |s|
    ensures LastOf(r) == LastOf(s)
    decreases |s|
  {
    if |s| <= 1 then s
    else if s[|s| - 1] == s[|s| - 2] then Collapse(s[..|s| - 1])
    else Collapse(s[..|s| - 1]) + [s[|s| - 1]]
  }

  /** One more value either extends the last run or starts a new one. */
  lemma CollapseSnoc<T>(s: seq<T>, x: T)
    ensures Collapse(s + [x]) == if LastOf(s) == Some(x) then Collapse(s) else Collapse(s) + [x]
  {
    var t := s + [x];
    if |s| == 0 {
      assert t == [x];
    } else {
      assert t[..|t| - 1] == s;
      assert t[|t| - 1] == x && t[|t| - 2] == s[|s| - 1];
    }
  }

  /** Collapsing leaves no two neighbours equal. */
  lemma {:induction false} CollapseNoAdjacentDuplicates<T>(s: seq<T>)
    ensures NoAdjacentDuplicates(Collapse(s))
    decreases |s|
  {
    if |s| > 1 {
      var init := s[..|s| - 1];
      CollapseNoAdjacentDuplicates(init);
      if s[|s| - 1] != s[|s| - 2] {
        var c := Collapse(init);
        assert LastOf(c) == LastOf(init) == Some(s[|s| - 2]);
      }
    }
  }

  /** Collapsing neither loses a value nor invents one. */
  lemma {:induction false} CollapseSameValues<T>(s: seq<T>, x: T)
    ensures x in Collapse(s) <==> x in s
    decreases |s|
  {
    if |s| > 1 {
      var init := s[..|s| - 1];
      CollapseSameValues(init, x);
      assert s == init + [s[|s| - 1]];
      if s[|s| - 1] == s[|s| - 2] {
        assert s[|s| - 1] in init;
      }
    }
  }

  /** A sequence without repeated neighbours is its own collapse. */
  lemma {:induction false} CollapseFixesDistinctRuns<T>(s: seq<T>)
    requires NoAdjacentDuplicates(s)
    ensures Collapse(s) == s
    decreases |s|
  {
    if |s| > 1 {
      var init := s[..|s| - 1];
      assert NoAdjacentDuplicates(init) by {
        forall i | 0 < i < |init| ensures init[i - 1] != init[i] {
          assert s[i - 1] != s[i];
        }
      }
      CollapseFixesDistinctRuns(init);
      var x := s[|s| - 1];
      assert s[|s| - 2] != x;
      assert s == init + [x];
      CollapseSnoc(init, x);
    }
  }

  /** A non-empty run of one value collapses to that value alone. */
  lemma {:induction false} CollapseSingleRun<T>(s: seq<T>, x: T)
    requires |s| > 0
    requires forall i :: 0 <= i < |s| ==> s[i] == x
    ensures Collapse(s) == [x]
    decreases |s|
  {
    if |s| > 1 {
      CollapseSingleRun(s[..|s| - 1], x);
    }
  }
}
