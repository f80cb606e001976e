/** Comparing an image with a sibling: changed runs, counts, and patching one into the other. */
module Siblings {
  import opened Basics
  import opened Runs

  /** Offsets of the longer image where the two are not the same. */
  ghost function ChangedSet(left: Bytes, right: Bytes): set<int> {
    set i | 0 <= i < Max(|left|, |right|) && Different(left, right, i)
  }

  predicate Different(left: Bytes, right: Bytes, i: nat) {
    i >= |left| || i >= |right| || left[i] != right[i]
  }

  /** `changed_runs`. */
  method ChangedRuns(left: Bytes, right: Bytes) returns (runs: seq<Run>)
    ensures Lists(runs, ChangedSet(left, right))
  {
    var n := Max(|left|, |right|);
    ghost var d := ChangedSet(left, right);
    var start: Option<int> := None;
    runs := [];
    assert forall r :: Maximal(d, r) ==> r.lo in d;
    for i := 0 to n
      invariant Spaced(runs)
      invariant start.None? ==> i - 1 !in d && FoundUpTo(runs, d, 1, i)
      invariant start.Some? ==>
        && 0 <= start.value < i && start.value - 1 !in d
        && (forall k :: start.value <= k < i ==> k in d)
        && FoundUpTo(runs, d, 1, start.value)
    {
      if Different(left, right, i) {
        if start.None? {
          start := Some(i);
        }
      } else if start.Some? {
        Close(runs, d, start.value, i);
        runs, start := runs + [Run(start.value, i)], None;
        RunsStay(runs, d, 1, i);
      } else {
        RunsStay(runs, d, 1, i);
      }
    }
    if start.Some? {
      Close(runs, d, start.value, n);
      runs := runs + [Run(start.value, n)];
    }
    AllFound(runs, d, 0, n);
  }

  /** One row of the comparison. */
  datatype Row = Row(
    identical: bool, changedBytes: int, changedRuns: nat,
    firstChange: Option<int>, lastChangeExclusive: Option<int>, runs: seq<Run>)

  /** The row `compare` makes for one sibling. */
  method Compare(base: Bytes, data: Bytes) returns (row: Row)
    ensures Lists(row.runs, ChangedSet(base, data))
    ensures row.identical <==> base == data
    ensures row.changedBytes == |ChangedSet(base, data)| && row.changedRuns == |row.runs|
    ensures row.identical <==> row.runs == []
    ensures row.runs == [] <==> row.firstChange == None
    ensures row.runs == [] <==> row.lastChangeExclusive == None
    ensures row.runs != [] ==>
      var d, first, end := ChangedSet(base, data), row.firstChange.value, row.lastChangeExclusive.value;
      first in d && end - 1 in d && forall i <- d :: first <= i < end
  {
    var runs := ChangedRuns(base, data);
    ghost var d := ChangedSet(base, data);
    ListsCount(runs, d, 0, Max(|base|, |data|));
    ListsEnds(runs, d, 0, Max(|base|, |data|));
    SameExactly(base, data);
    row := Row(data == base, TotalLength(runs), |runs|,
               if runs == [] then None else Some(runs[0].lo),
               if runs == [] then None else Some(runs[|runs| - 1].hi),
               runs);
  }

  lemma SameExactly(left: Bytes, right: Bytes)
    ensures ChangedSet(left, right) == {} <==> left == right
  {
    var d := ChangedSet(left, right);
    if left != right {
      if |left| != |right| {
        assert Different(left, right, Min(|left|, |right|));
        assert Min(|left|, |right|) in d;
      } else {
        var i :| 0 <= i < |left| && left[i] != right[i];
        assert Different(left, right, i);
        assert i in d;
      }
    }
  }

  /** `left`, overwritten with `right` over the runs, cut or extended to the length of `right`. */
  function Patch(left: Bytes, right: Bytes, runs: seq<Run>): (r: Bytes)
    ensures |r| == |right|
  {
    seq(|right|, i requires 0 <= i < |right| =>
      if InRun(runs, i) then right[i] else if i < |left| then left[i] else 0)
  }

  /** The changed runs are enough to turn one image into the other. */
  lemma PatchRestores(left: Bytes, right: Bytes, runs: seq<Run>)
    requires Lists(runs, ChangedSet(left, right))
    ensures Patch(left, right, runs) == right
  {
    forall i | 0 <= i < |right|
      ensures Patch(left, right, runs)[i] == right[i]
    {
      ListsCover(runs, ChangedSet(left, right), 0, Max(|left|, |right|), i);
    }
  }

  /** ... and none can be spared: a patch that works covers every byte that differs in both images. */
  lemma PatchNeedsAll(left: Bytes, right: Bytes, runs: seq<Run>, i: nat)
    requires Patch(left, right, runs) == right && i < |left| && i < |right| && i in ChangedSet(left, right)
    ensures InRun(runs, i)
  {
    assert Patch(left, right, runs)[i] == right[i];
  }
}
