/** Checksum discovery: offsets that differ in every pair of images, grouped into runs. */
module Discover {
  import opened Basics
  import opened Runs
  import EditRuns

  // ------------------------------------------------------------------
  // Ascending lists
  // ------------------------------------------------------------------

  predicate Ascending(s: seq<int>) {
    forall i, j :: 0 <= i < j < |s| ==> s[i] < s[j]
  }

  ghost predicate ListOf(s: seq<int>, d: set<int>) {
    Ascending(s) && forall o :: o in s <==> o in d
  }

  predicate IsLeast(d: set<int>, m: int) {
    m in d && forall o <- d :: m <= o
  }

  lemma {:induction false} LeastExists(d: set<int>)
    requires d != {}
    ensures exists m :: IsLeast(d, m)
    decreases |d|
  {
    SomeMember(d);
    var x :| x in d;
    var rest := d - {x};
    assert d == rest + {x};
    if rest == {} {
      assert IsLeast(d, x);
    } else {
      LeastExists(rest);
      var m :| IsLeast(rest, m);
      assert IsLeast(d, if x < m then x else m);
    }
  }

  function Least(d: set<int>): (m: int)
    requires d != {}
    ensures m in d && forall o <- d :: m <= o
  {
    LeastExists(d);
    var m :| IsLeast(d, m);
    m
  }

  /** `sorted(offsets)`. */
  function Sorted(d: set<int>): (s: seq<int>)
    ensures ListOf(s, d)
  {
    if d == {} then []
    else
      var m := Least(d);
      [m] + Sorted(d - {m})
  }

  /** `diff_pair`: the differing offsets of two images, ascending. */
  method DiffPair(a: Bytes, b: Bytes) returns (offsets: seq<int>)
    ensures ListOf(offsets, EditRuns.DiffSet(a, b))
  {
    offsets := [];
    for i := 0 to Min(|a|, |b|)
      invariant Ascending(offsets)
      invariant forall k :: 0 <= k < |offsets| ==> offsets[k] < i
      invariant forall o :: o in offsets <==> 0 <= o < i && a[o] != b[o]
    {
      if a[i] != b[i] {
        offsets := offsets + [i];
      }
    }
  }

  // ------------------------------------------------------------------
  // Scoring runs
  // ------------------------------------------------------------------

  datatype Scored = Scored(start: int, length: int, distance: int)

  function Abs(x: int): nat {
    if x < 0 then -x else x
  }

  /** Distance to the nearer of the two usual checksum zones. */
  function DistScore(start: int, romSize: int): int {
    var targetB := if romSize > 0x2_0000 then romSize - 0x2_0000 else 0;
    Min(Abs(start - 0x1_0000), Abs(start - targetB))
  }

  /** `d` is how far `start` lies from 0x10000 or from 128 KiB below the end, whichever is nearer. */
  ghost predicate NearestZone(d: int, start: int, romSize: int) {
    var zone := if romSize > 131072 then romSize - 131072 else 0;
    && (start == 65536 + d || start == 65536 - d || start == zone + d || start == zone - d)
    && 0 <= d
    && (start <= 65536 - d || 65536 + d <= start)
    && (start <= zone - d || zone + d <= start)
  }

  lemma DistScoreExact(d: int, start: int, romSize: int)
    ensures DistScore(start, romSize) == d <==> NearestZone(d, start, romSize)
  {
  }

  function WithScores(runs: seq<Run>, romSize: int): (r: seq<Scored>)
    ensures |r| == |runs|
  {
    seq(|runs|, i requires 0 <= i < |runs| =>
      Scored(runs[i].lo, Length(runs[i]), DistScore(runs[i].lo, romSize)))
  }

  function RunsOf(scored: seq<Scored>): (r: seq<Run>)
    ensures |r| == |scored|
  {
    seq(|scored|, i requires 0 <= i < |scored| => Run(scored[i].start, scored[i].start + scored[i].length))
  }

  /** The loop over the sorted offsets: extend the run or close it. */
  method GroupOffsets(offs: seq<int>, ghost d: set<int>) returns (runs: seq<Run>)
    requires offs != [] && ListOf(offs, d)
    ensures Lists(runs, d)
  {
    var start := offs[0];
    var prev := start;
    runs := [];
    BelowFirst(offs, d);
    GrowsFrom(d, start);
    for k := 1 to |offs|
      invariant prev == offs[k - 1] && start <= prev && Growing(d, start, prev)
      invariant Spaced(runs) && FoundUpTo(runs, d, 1, start)
    {
      hide FoundUpTo, ListOf, Spaced, Maximal, Growing;
      var o := offs[k];
      GapBetween(offs, d, k);
      if o == prev + 1 {
        Grows(d, start, prev);
        prev := o;
      } else {
        CannotGrow(d, start, prev);
        Close(runs, d, start, prev + 1);
        runs := runs + [Run(start, prev + 1)];
        RunsSkip(runs, d, 1, prev + 1, o);
        GrowsFrom(d, o);
        start := o;
        prev := o;
      }
    }
    AboveLast(offs, d);
    CannotGrow(d, start, prev);
    Close(runs, d, start, prev + 1);
    runs := runs + [Run(start, prev + 1)];
    AllFound(runs, d, offs[0], prev + 1);
  }

  /** The run that starts at `lo` reaches at least to `last`. */
  ghost predicate Growing(d: set<int>, lo: int, last: int) {
    lo - 1 !in d && forall o :: lo <= o <= last ==> o in d
  }

  lemma GrowsFrom(d: set<int>, lo: int)
    requires lo - 1 !in d && lo in d
    ensures Growing(d, lo, lo)
  {
  }

  lemma Grows(d: set<int>, lo: int, last: int)
    requires Growing(d, lo, last) && last + 1 in d
    ensures Growing(d, lo, last + 1)
  {
  }

  lemma CannotGrow(d: set<int>, lo: int, last: int)
    requires lo <= last && Growing(d, lo, last) && last + 1 !in d
    ensures Maximal(d, Run(lo, last + 1))
  {
  }

  lemma BelowFirst(offs: seq<int>, d: set<int>)
    requires offs != [] && ListOf(offs, d)
    ensures offs[0] in d && offs[0] - 1 !in d
    ensures FoundUpTo([], d, 1, offs[0])
  {
    assert offs[0] in offs;
    forall o | o in d
      ensures offs[0] <= o
    {
      var k :| 0 <= k < |offs| && offs[k] == o;
    }
    assert forall r :: Maximal(d, r) ==> r.lo in d;
  }

  lemma GapBetween(offs: seq<int>, d: set<int>, k: nat)
    requires ListOf(offs, d) && 0 < k < |offs|
    ensures offs[k] in d && offs[k - 1] < offs[k]
    ensures forall o :: offs[k - 1] < o < offs[k] ==> o !in d
  {
    assert offs[k] in offs;
    forall o | o in d
      ensures o <= offs[k - 1] || offs[k] <= o
    {
      var j :| 0 <= j < |offs| && offs[j] == o;
    }
  }

  lemma AboveLast(offs: seq<int>, d: set<int>)
    requires offs != [] && ListOf(offs, d)
    ensures Bounded(d, offs[0], offs[|offs| - 1] + 1)
  {
    forall o | o in d
      ensures offs[0] <= o <= offs[|offs| - 1]
    {
      var j :| 0 <= j < |offs| && offs[j] == o;
    }
  }

  /** `score_runs`: exactly the maximal runs of the offset set, each with its distance. */
  method ScoreRuns(offsets: set<int>, romSize: int) returns (scored: seq<Scored>)
    ensures Lists(RunsOf(scored), offsets)
    ensures forall i :: 0 <= i < |scored| ==> NearestZone(scored[i].distance, scored[i].start, romSize)
  {
    if offsets == {} {
      scored := [];
      NoRuns();
    } else {
      var offs := Sorted(offsets);
      var least := Least(offsets);
      assert least in offs;
      var runs := GroupOffsets(offs, offsets);
      scored := WithScores(runs, romSize);
      assert RunsOf(scored) == runs;
      forall i | 0 <= i < |scored|
        ensures NearestZone(scored[i].distance, scored[i].start, romSize)
      {
        DistScoreExact(scored[i].distance, scored[i].start, romSize);
      }
    }
  }

  lemma NoRuns()
    ensures Lists(RunsOf([]), {})
  {
    var d: set<int> := {};
    assert forall r :: Maximal(d, r) ==> r.lo in d;
  }

  lemma FiniteBounds(d: set<int>) returns (lo: int, hi: int)
    ensures Bounded(d, lo, hi)
    decreases |d|
  {
    if d == {} {
      lo, hi := 0, 0;
    } else {
      SomeMember(d);
      var x :| x in d;
      lo, hi := FiniteBounds(d - {x});
      lo, hi := Min(lo, x), Max(hi, x + 1);
      assert forall o <- d :: o == x || o in d - {x};
    }
  }

  /** Writing the runs out again gives the offset set back. */
  lemma RunsExpand(scored: seq<Scored>, offsets: set<int>, o: int)
    requires Lists(RunsOf(scored), offsets)
    ensures o in offsets <==> InRun(RunsOf(scored), o)
    ensures TotalLength(RunsOf(scored)) == |offsets|
  {
    var lo, hi := FiniteBounds(offsets);
    ListsCover(RunsOf(scored), offsets, lo, hi, o);
    ListsCount(RunsOf(scored), offsets, lo, hi);
  }

  /** `sorted ascending by length`, as documented. */
  predicate ShortestFirst(scored: seq<Scored>) {
    forall i, j :: 0 <= i < j < |scored| ==> scored[i].length <= scored[j].length
  }

  /** No maximal run of the set is longer than one further right. */
  ghost predicate RunsGrow(d: set<int>) {
    forall r, s :: Maximal(d, r) && Maximal(d, s) && r.lo < s.lo ==> Length(r) <= Length(s)
  }

  /** The result is in the documented order exactly when the runs already stand in it. */
  lemma SortedExactly(scored: seq<Scored>, offsets: set<int>)
    requires Lists(RunsOf(scored), offsets)
    ensures ShortestFirst(scored) <==> RunsGrow(offsets)
  {
    hide Maximal;
    var runs := RunsOf(scored);
    if ShortestFirst(scored) {
      forall r, s | Maximal(offsets, r) && Maximal(offsets, s) && r.lo < s.lo
        ensures Length(r) <= Length(s)
      {
        assert r in runs && s in runs;
        var i :| 0 <= i < |runs| && runs[i] == r;
        var j :| 0 <= j < |runs| && runs[j] == s;
        InOrder(runs, offsets, i, j);
      }
    }
    if RunsGrow(offsets) {
      forall i, j | 0 <= i < j < |scored|
        ensures scored[i].length <= scored[j].length
      {
        assert runs[i] in runs && runs[j] in runs;
        InOrder(runs, offsets, i, j);
      }
    }
  }

  /** Listed runs stand by address. */
  lemma InOrder(runs: seq<Run>, d: set<int>, i: nat, j: nat)
    requires Lists(runs, d) && i < |runs| && j < |runs|
    ensures i < j <==> runs[i].lo < runs[j].lo
  {
    assert runs[i] in runs && runs[j] in runs;
    assert Maximal(d, runs[i]) && Maximal(d, runs[j]);
  }

  /** The offsets 0, 1 and 5: the run of two comes before the run of one. */
  lemma NotSorted(scored: seq<Scored>)
    requires Lists(RunsOf(scored), {0, 1, 5})
    ensures RunsOf(scored) == [Run(0, 2), Run(5, 6)] && !ShortestFirst(scored)
  {
    var d, runs := {0, 1, 5}, [Run(0, 2), Run(5, 6)];
    forall r
      ensures r in runs <==> Maximal(d, r)
    {
      assert Maximal(d, Run(0, 2)) && Maximal(d, Run(5, 6));
      if Maximal(d, r) {
        assert r.lo in d;
        RunsMeet(d, r, if r.lo == 5 then Run(5, 6) else Run(0, 2), r.lo);
      }
    }
    OneAnswer(RunsOf(scored), runs, d);
    assert RunsOf(scored)[0] == Run(0, 2) && RunsOf(scored)[1] == Run(5, 6);
  }

  // ------------------------------------------------------------------
  // Differing in every pair
  // ------------------------------------------------------------------

  /** The pairs `(a[i], a[j])` with `i < j` that have one length. */
  function PairsWith(first: Bytes, rest: seq<Bytes>): seq<(Bytes, Bytes)> {
    if rest == [] then []
    else (if |first| == |rest[0]| then [(first, rest[0])] else []) + PairsWith(first, rest[1..])
  }

  function Pairs(roms: seq<Bytes>): seq<(Bytes, Bytes)> {
    if roms == [] then [] else PairsWith(roms[0], roms[1..]) + Pairs(roms[1..])
  }

  /** In how many of the pairs the offset differs. */
  ghost function Count(pairs: seq<(Bytes, Bytes)>, o: int): nat {
    if pairs == [] then 0
    else Count(pairs[..|pairs| - 1], o)
         + (if o in EditRuns.DiffSet(pairs[|pairs| - 1].0, pairs[|pairs| - 1].1) then 1 else 0)
  }

  ghost predicate DiffersInAll(pairs: seq<(Bytes, Bytes)>, o: int) {
    forall p <- pairs :: o in EditRuns.DiffSet(p.0, p.1)
  }

  lemma {:induction false} CountExact(pairs: seq<(Bytes, Bytes)>, o: int)
    ensures Count(pairs, o) <= |pairs|
    ensures Count(pairs, o) == |pairs| <==> DiffersInAll(pairs, o)
    decreases |pairs|
  {
    if pairs != [] {
      var front, p := pairs[..|pairs| - 1], pairs[|pairs| - 1];
      CountExact(front, o);
      assert pairs == front + [p];
    }
  }

  /** The histogram: one count for every offset that differs somewhere. */
  ghost predicate Histogram(h: map<int, nat>, pairs: seq<(Bytes, Bytes)>) {
    forall o :: (if o in h then h[o] else 0) == Count(pairs, o)
  }

  /** One pair's offsets entered into the histogram. */
  method Enter(h0: map<int, nat>, offsets: seq<int>) returns (h: map<int, nat>)
    requires Ascending(offsets)
    ensures forall o :: (if o in h then h[o] else 0) == (if o in h0 then h0[o] else 0) + (if o in offsets then 1 else 0)
  {
    h := h0;
    for k := 0 to |offsets|
      invariant forall o :: (if o in h then h[o] else 0)
                         == (if o in h0 then h0[o] else 0) + (if o in offsets[..k] then 1 else 0)
    {
      var off := offsets[k];
      assert offsets[..k + 1] == offsets[..k] + [off];
      assert off !in offsets[..k];
      h := h[off := (if off in h then h[off] else 0) + 1];
    }
    assert offsets[..|offsets|] == offsets;
  }

  /** The offsets that differ in every pair; `None` when there is no pair to compare. */
  method AlwaysDiffering(pairs: seq<(Bytes, Bytes)>) returns (always: Option<set<int>>)
    ensures always.None? <==> pairs == []
    ensures always.Some? ==> forall o :: o in always.value <==> DiffersInAll(pairs, o)
  {
    var h: map<int, nat> := map[];
    for k := 0 to |pairs|
      invariant Histogram(h, pairs[..k])
    {
      var offsets := DiffPair(pairs[k].0, pairs[k].1);
      h := Enter(h, offsets);
      assert pairs[..k + 1][..k] == pairs[..k];
    }
    assert pairs[..|pairs|] == pairs;
    if pairs == [] {
      return None;
    }
    var n := |pairs|;
    always := Some(set o | o in h && h[o] == n);
    forall o
      ensures o in always.value <==> DiffersInAll(pairs, o)
    {
      CountExact(pairs, o);
    }
  }

  lemma {:induction false} PairsWithExact(first: Bytes, rest: seq<Bytes>, o: int)
    ensures DiffersInAll(PairsWith(first, rest), o) <==>
            forall j :: 0 <= j < |rest| && |rest[j]| == |first| ==> o in EditRuns.DiffSet(first, rest[j])
  {
    if rest != [] {
      PairsWithExact(first, rest[1..], o);
      AllOfSplit(if |first| == |rest[0]| then [(first, rest[0])] else [], PairsWith(first, rest[1..]), o);
      assert forall j :: 1 <= j < |rest| ==> rest[j] == rest[1..][j - 1];
      assert forall j :: 0 <= j < |rest| - 1 ==> rest[1..][j] == rest[j + 1];
    }
  }

  lemma AllOfSplit(a: seq<(Bytes, Bytes)>, b: seq<(Bytes, Bytes)>, o: int)
    ensures DiffersInAll(a + b, o) <==> DiffersInAll(a, o) && DiffersInAll(b, o)
  {
    assert forall p :: p in a + b <==> p in a || p in b;
  }

  /** Every two images of one length differ at the offset. */
  ghost predicate PairwiseDiffer(roms: seq<Bytes>, o: int) {
    forall i, j :: 0 <= i < j < |roms| && |roms[i]| == |roms[j]| ==> o in EditRuns.DiffSet(roms[i], roms[j])
  }

  lemma PairwiseStep(roms: seq<Bytes>, o: int)
    requires roms != []
    ensures PairwiseDiffer(roms, o) <==>
            && (forall j :: 0 <= j < |roms| - 1 && |roms[1..][j]| == |roms[0]| ==>
                  o in EditRuns.DiffSet(roms[0], roms[1..][j]))
            && PairwiseDiffer(roms[1..], o)
  {
    var rest := roms[1..];
    assert forall j :: 1 <= j < |roms| ==> roms[j] == rest[j - 1];
    assert forall j :: 0 <= j < |roms| - 1 ==> rest[j] == roms[j + 1];
  }

  /** The pairs range over every two images of one length. */
  lemma {:induction false} PairsExact(roms: seq<Bytes>, o: int)
    ensures DiffersInAll(Pairs(roms), o) <==> PairwiseDiffer(roms, o)
  {
    hide DiffersInAll, PairwiseDiffer;
    if roms == [] {
      NothingToDiffer(o);
    } else {
      PairsExact(roms[1..], o);
      PairsWithExact(roms[0], roms[1..], o);
      AllOfSplit(PairsWith(roms[0], roms[1..]), Pairs(roms[1..]), o);
      PairwiseStep(roms, o);
    }
  }

  lemma NothingToDiffer(o: int)
    ensures DiffersInAll([], o) && PairwiseDiffer([], o)
  {
  }

  /** The diff part of `family_report` for one family of images. */
  method FamilyOffsets(roms: seq<Bytes>) returns (always: Option<set<int>>)
    ensures always.None? <==> Pairs(roms) == []
    ensures always.Some? ==> forall o :: o in always.value <==> PairwiseDiffer(roms, o)
  {
    hide PairwiseDiffer, DiffersInAll, Pairs;
    always := AlwaysDiffering(Pairs(roms));
    if always.Some? {
      forall o
        ensures o in always.value <==> PairwiseDiffer(roms, o)
      {
        PairsExact(roms, o);
      }
    }
  }

  predicate SameSize(roms: seq<Bytes>, size: nat) {
    forall i :: 0 <= i < |roms| ==> |roms[i]| == size
  }

  predicate Distinct(s: seq<int>) {
    forall i, j :: 0 <= i < j < |s| ==> s[i] != s[j]
  }

  /** The column of bytes at one offset. */
  function Column(roms: seq<Bytes>, o: nat): (c: seq<int>)
    requires forall i :: 0 <= i < |roms| ==> o < |roms[i]|
    ensures |c| == |roms| && forall i :: 0 <= i < |c| ==> c[i] == roms[i][o]
  {
    seq(|roms|, i requires 0 <= i < |roms| => roms[i][o])
  }

  /** For one family of equally long images: all pairs differ exactly where all bytes are distinct. */
  lemma ColumnDistinct(roms: seq<Bytes>, size: nat, o: int)
    requires SameSize(roms, size) && |roms| >= 2
    ensures PairwiseDiffer(roms, o) <==> 0 <= o < size && Distinct(Column(roms, o))
  {
    if PairwiseDiffer(roms, o) {
      assert o in EditRuns.DiffSet(roms[0], roms[1]);
      forall i, j | 0 <= i < j < |roms|
        ensures roms[i][o] != roms[j][o]
      {
        assert o in EditRuns.DiffSet(roms[i], roms[j]);
      }
    }
    if 0 <= o < size && Distinct(Column(roms, o)) {
      forall i, j | 0 <= i < j < |roms|
        ensures o in EditRuns.DiffSet(roms[i], roms[j])
      {
        assert Column(roms, o)[i] != Column(roms, o)[j];
      }
    }
  }

  ghost function Values(s: seq<int>): set<int> {
    if s == [] then {} else Values(s[..|s| - 1]) + {s[|s| - 1]}
  }

  lemma {:induction false} ValuesOf(s: seq<int>, v: int)
    ensures v in Values(s) <==> v in s
    decreases |s|
  {
    if s != [] {
      ValuesOf(s[..|s| - 1], v);
      assert s == s[..|s| - 1] + [s[|s| - 1]];
    }
  }

  lemma {:induction false} ValuesCount(s: seq<int>)
    requires Distinct(s)
    ensures |Values(s)| == |s|
    decreases |s|
  {
    if s != [] {
      ValuesCount(s[..|s| - 1]);
      ValuesOf(s[..|s| - 1], s[|s| - 1]);
    }
  }

  lemma {:induction false} SubsetSize(a: set<int>, b: set<int>)
    requires a <= b
    ensures |a| <= |b|
    decreases |a|
  {
    if a != {} {
      SomeMember(a);
      var x :| x in a;
      SubsetSize(a - {x}, b - {x});
    }
  }

  /** More than 256 images of one size leave no offset at which all of them differ. */
  lemma TooManyImages(roms: seq<Bytes>, size: nat, o: int)
    requires SameSize(roms, size) && |roms| > 256
    ensures !DiffersInAll(Pairs(roms), o)
  {
    PairsExact(roms, o);
    if PairwiseDiffer(roms, o) {
      ColumnDistinct(roms, size, o);
      AtMost256(Column(roms, o));
    }
  }

  lemma AtMost256(s: seq<int>)
    requires Distinct(s) && forall i :: 0 <= i < |s| ==> 0 <= s[i] < 256
    ensures |s| <= 256
  {
    ValuesCount(s);
    StretchSize(0, 256);
    forall v | v in Values(s)
      ensures v in Stretch(0, 256)
    {
      ValuesOf(s, v);
    }
    SubsetSize(Values(s), Stretch(0, 256));
  }
}
