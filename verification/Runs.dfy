/** Maximal runs of a finite set of offsets. */
module Runs {

  /** The offsets `lo .. hi`. */
  datatype Run = Run(lo: int, hi: int)

  /** A stretch of `d` that cannot be made longer at either end. */
  ghost predicate Maximal(d: set<int>, r: Run) {
    && r.lo < r.hi
    && (forall i :: r.lo <= i < r.hi ==> i in d)
    && r.lo - 1 !in d && r.hi !in d
  }

  /** Each run ends before the next begins, with a gap. */
  predicate Spaced(runs: seq<Run>) {
    forall i, j :: 0 <= i < j < |runs| ==> runs[i].hi < runs[j].lo
  }

  /** `runs` lists the maximal runs of `d`, in order. */
  ghost predicate Lists(runs: seq<Run>, d: set<int>) {
    && Spaced(runs)
    && forall r :: r in runs <==> Maximal(d, r)
  }

  function Length(r: Run): int {
    r.hi - r.lo
  }

  function TotalLength(runs: seq<Run>): int {
    if runs == [] then 0 else Length(runs[0]) + TotalLength(runs[1..])
  }

  predicate InRun(runs: seq<Run>, i: int) {
    exists r <- runs :: r.lo <= i < r.hi
  }

  /** Two maximal runs with a common offset are one. */
  lemma RunsMeet(d: set<int>, r: Run, s: Run, i: int)
    requires Maximal(d, r) && Maximal(d, s) && r.lo <= i < r.hi && s.lo <= i < s.hi
    ensures r == s
  {
    assert r.lo <= s.lo - 1 < r.hi ==> s.lo - 1 in d;
    assert s.lo <= r.lo - 1 < s.hi ==> r.lo - 1 in d;
    assert s.lo <= r.hi < s.hi ==> r.hi in d;
    assert r.lo <= s.hi < r.hi ==> s.hi in d;
  }

  ghost predicate Bounded(d: set<int>, lo: int, hi: int) {
    forall i <- d :: lo <= i < hi
  }

  lemma {:induction false} Leftmost(d: set<int>, lo: int, hi: int, i: int) returns (l: int)
    requires Bounded(d, lo, hi) && i in d
    ensures l <= i && l - 1 !in d && forall k :: l <= k <= i ==> k in d
    decreases i - lo
  {
    l := i;
    if i - 1 in d {
      l := Leftmost(d, lo, hi, i - 1);
    }
  }

  lemma {:induction false} Rightmost(d: set<int>, lo: int, hi: int, i: int) returns (r: int)
    requires Bounded(d, lo, hi) && i in d
    ensures i < r && r !in d && forall k :: i <= k < r ==> k in d
    decreases hi - i
  {
    r := i + 1;
    if i + 1 in d {
      r := Rightmost(d, lo, hi, i + 1);
    }
  }

  /** Every offset of the set lies in a maximal run. */
  lemma RunAround(d: set<int>, lo: int, hi: int, i: int) returns (r: Run)
    requires Bounded(d, lo, hi) && i in d
    ensures Maximal(d, r) && r.lo <= i < r.hi
  {
    var l := Leftmost(d, lo, hi, i);
    var h := Rightmost(d, lo, hi, i);
    r := Run(l, h);
  }

  /** The listed runs cover exactly the set. */
  lemma ListsCover(runs: seq<Run>, d: set<int>, lo: int, hi: int, i: int)
    requires Lists(runs, d) && Bounded(d, lo, hi)
    ensures InRun(runs, i) <==> i in d
  {
    if i in d {
      var r := RunAround(d, lo, hi, i);
      assert r in runs;
    }
    if InRun(runs, i) {
      var r :| r in runs && r.lo <= i < r.hi;
      assert Maximal(d, r);
    }
  }

  ghost predicate Proper(runs: seq<Run>) {
    forall r <- runs :: r.lo < r.hi
  }

  ghost function Stretch(lo: int, hi: int): (r: set<int>)
    ensures forall i :: i in r <==> lo <= i < hi
    decreases hi - lo
  {
    if hi <= lo then {} else Stretch(lo, hi - 1) + {hi - 1}
  }

  lemma {:induction false} StretchSize(lo: int, hi: int)
    requires lo <= hi
    ensures |Stretch(lo, hi)| == hi - lo
    decreases hi - lo
  {
    if lo < hi {
      StretchSize(lo, hi - 1);
    }
  }

  ghost function Union(runs: seq<Run>): set<int> {
    if runs == [] then {} else Stretch(runs[0].lo, runs[0].hi) + Union(runs[1..])
  }

  lemma {:induction false} UnionExact(runs: seq<Run>, i: int)
    ensures i in Union(runs) <==> InRun(runs, i)
  {
    if runs != [] {
      UnionExact(runs[1..], i);
      assert runs == [runs[0]] + runs[1..];
    }
  }

  lemma {:induction false} UnionSize(runs: seq<Run>)
    requires Spaced(runs) && Proper(runs)
    ensures |Union(runs)| == TotalLength(runs)
  {
    if runs != [] {
      var r, rest := runs[0], runs[1..];
      UnionSize(rest);
      StretchSize(r.lo, r.hi);
      forall i | i in Stretch(r.lo, r.hi)
        ensures i !in Union(rest)
      {
        UnionExact(rest, i);
      }
      assert Stretch(r.lo, r.hi) !! Union(rest);
    }
  }

  /** The lengths of the listed runs add up to the size of the set. */
  lemma ListsCount(runs: seq<Run>, d: set<int>, lo: int, hi: int)
    requires Lists(runs, d) && Bounded(d, lo, hi)
    ensures TotalLength(runs) == |d|
  {
    UnionSize(runs);
    forall i
      ensures i in Union(runs) <==> i in d
    {
      UnionExact(runs, i);
      ListsCover(runs, d, lo, hi, i);
    }
    assert Union(runs) == d;
  }

  /** The list starts at the least offset of the set and ends at its greatest. */
  lemma ListsEnds(runs: seq<Run>, d: set<int>, lo: int, hi: int)
    requires Lists(runs, d) && Bounded(d, lo, hi)
    ensures runs == [] ==> d == {}
    ensures runs != [] ==> Bounded(d, runs[0].lo, runs[|runs| - 1].hi)
    ensures runs != [] ==> runs[0].lo in d && runs[|runs| - 1].hi - 1 in d
  {
    if runs != [] {
      assert runs[0] in runs && runs[|runs| - 1] in runs;
      assert Maximal(d, runs[0]) && Maximal(d, runs[|runs| - 1]);
    }
    forall i | i in d
      ensures runs != [] && runs[0].lo <= i < runs[|runs| - 1].hi
    {
      ListsCover(runs, d, lo, hi, i);
      var r :| r in runs && r.lo <= i < r.hi;
      var k :| 0 <= k < |runs| && runs[k] == r;
      assert Maximal(d, runs[0]) && Maximal(d, runs[|runs| - 1]);
    }
    assert runs == [] ==> forall i :: i !in d;
  }

  lemma {:induction false} ListsUnique(runs: seq<Run>, other: seq<Run>)
    requires Spaced(runs) && Spaced(other) && Proper(runs) && Proper(other)
    requires forall r :: r in runs <==> r in other
    ensures runs == other
    decreases |runs|
  {
    assert other != [] ==> other[0] in runs;
    if runs != [] {
      assert runs[0] in other;
      FirstIsFirst(runs, other);
      var a, b := runs[1..], other[1..];
      assert runs == [runs[0]] + a && other == [other[0]] + b;
      forall r
        ensures r in a <==> r in b
      {
        NotInTail(runs, r);
        NotInTail(other, r);
      }
      ListsUnique(a, b);
    }
  }

  /** A set of offsets has one list of maximal runs. */
  lemma OneAnswer(runs: seq<Run>, other: seq<Run>, d: set<int>)
    requires Lists(runs, d) && Lists(other, d)
    ensures runs == other
  {
    ListsUnique(runs, other);
  }

  lemma NotInTail(runs: seq<Run>, r: Run)
    requires runs != [] && Spaced(runs) && Proper(runs)
    ensures r in runs[1..] <==> r in runs && r != runs[0]
  {
    assert runs == [runs[0]] + runs[1..];
    if r in runs[1..] {
      var k :| 0 <= k < |runs[1..]| && runs[1..][k] == r;
      assert runs[k + 1] == r && runs[0].hi < runs[k + 1].lo;
      assert runs[0] in runs;
    }
  }

  lemma FirstIsFirst(runs: seq<Run>, other: seq<Run>)
    requires runs != [] && other != [] && Spaced(runs) && Spaced(other) && Proper(runs) && Proper(other)
    requires forall r :: r in runs <==> r in other
    ensures runs[0] == other[0]
  {
    assert runs[0] in other && other[0] in runs;
    var i :| 0 <= i < |other| && other[i] == runs[0];
    var j :| 0 <= j < |runs| && runs[j] == other[0];
    assert runs[0] in runs && other[0] in other;
  }

  // ------------------------------------------------------------------
  // Collecting runs from left to right
  // ------------------------------------------------------------------

  /** The maximal runs of `d` that end by `i` and are long enough. */
  ghost predicate FoundUpTo(runs: seq<Run>, d: set<int>, minRun: int, i: int) {
    forall r :: r in runs <==> Maximal(d, r) && Length(r) >= minRun && r.hi <= i
  }

  lemma RunsStay(runs: seq<Run>, d: set<int>, minRun: int, i: int)
    requires FoundUpTo(runs, d, minRun, i) && i !in d
    ensures FoundUpTo(runs, d, minRun, i + 1)
  {
    forall r | Maximal(d, r)
      ensures r.hi != i + 1
    {
      assert r.lo <= i < r.hi ==> i in d;
    }
  }

  /** Nothing but the run `i .. j` ends after `i` and by `j`. */
  lemma RunsStep(runs: seq<Run>, d: set<int>, minRun: int, i: int, j: int)
    requires FoundUpTo(runs, d, minRun, i) && Maximal(d, Run(i, j))
    ensures FoundUpTo(if j - i >= minRun then runs + [Run(i, j)] else runs, d, minRun, j)
  {
    var s := Run(i, j);
    forall r | Maximal(d, r) && i < r.hi <= j
      ensures r == s
    {
      RunsMeet(d, r, s, r.hi - 1);
    }
  }

  lemma SpacedSnoc(runs: seq<Run>, r: Run)
    requires Spaced(runs) && forall s <- runs :: s.hi < r.lo
    ensures Spaced(runs + [r])
  {
  }

  lemma EndsBefore(runs: seq<Run>, d: set<int>, minRun: int, i: int)
    requires FoundUpTo(runs, d, minRun, i) && i in d
    ensures forall s <- runs :: s.hi < i
  {
  }

  /** Closing the run `lo .. hi`. */
  lemma Close(runs: seq<Run>, d: set<int>, lo: int, hi: int)
    requires Spaced(runs) && FoundUpTo(runs, d, 1, lo) && Maximal(d, Run(lo, hi))
    ensures Spaced(runs + [Run(lo, hi)]) && FoundUpTo(runs + [Run(lo, hi)], d, 1, hi)
  {
    RunsStep(runs, d, 1, lo, hi);
    EndsBefore(runs, d, 1, lo);
    SpacedSnoc(runs, Run(lo, hi));
  }

  /** Moving on over offsets outside the set finds nothing new. */
  lemma {:induction false} RunsSkip(runs: seq<Run>, d: set<int>, minRun: int, i: int, j: int)
    requires FoundUpTo(runs, d, minRun, i) && i <= j && forall k :: i <= k < j ==> k !in d
    ensures FoundUpTo(runs, d, minRun, j)
    decreases j - i
  {
    hide FoundUpTo;
    if i < j {
      RunsStay(runs, d, minRun, i);
      RunsSkip(runs, d, minRun, i + 1, j);
    }
  }

  /** Past the last offset of the set, everything has been found. */
  lemma AllFound(runs: seq<Run>, d: set<int>, lo: int, hi: int)
    requires FoundUpTo(runs, d, 1, hi) && Spaced(runs) && Bounded(d, lo, hi)
    ensures Lists(runs, d)
  {
    assert forall r :: Maximal(d, r) ==> r.hi - 1 in d && Length(r) >= 1;
  }
}
