/** Edited runs between two images, and their merging into clusters. */
module EditRuns {
  import opened Basics
  import opened Runs

  /** Offsets, within both images, where the bytes differ. */
  ghost function DiffSet(a: Bytes, b: Bytes): set<int> {
    set i | 0 <= i < Min(|a|, |b|) && a[i] != b[i]
  }

  /** `find_edit_runs`: the maximal differing runs of at least `minRun` bytes, in order. */
  method FindEditRuns(a: Bytes, b: Bytes, minRun: int) returns (runs: seq<Run>)
    ensures Spaced(runs)
    ensures forall r :: r in runs <==> Maximal(DiffSet(a, b), r) && Length(r) >= minRun
  {
    var n := Min(|a|, |b|);
    ghost var d := DiffSet(a, b);
    assert forall r :: Maximal(d, r) ==> r.lo in d && r.hi - 1 in d;
    runs := [];
    var i := 0;
    while i < n
      invariant 0 <= i <= n
      invariant i - 1 !in d || i !in d
      invariant FoundUpTo(runs, d, minRun, i) && Spaced(runs)
    {
      if a[i] != b[i] {
        var j := i;
        while j < n && a[j] != b[j]
          invariant i <= j <= n
          invariant forall k :: i <= k < j ==> k in d
        {
          j := j + 1;
        }
        assert Maximal(d, Run(i, j));
        RunsStep(runs, d, minRun, i, j);
        if j - i >= minRun {
          EndsBefore(runs, d, minRun, i);
          SpacedSnoc(runs, Run(i, j));
          runs := runs + [Run(i, j)];
        }
        i := j;
      } else {
        RunsStay(runs, d, minRun, i);
        i := i + 1;
      }
    }
  }

  // ------------------------------------------------------------------
  // Clusters
  // ------------------------------------------------------------------

  datatype Cluster = Cluster(start: int, length: int, edited: int) {
    function End(): int {
      start + length
    }
  }

  function ClusterOf(group: seq<Run>): Cluster
    requires group != []
  {
    Cluster(group[0].lo, group[|group| - 1].hi - group[0].lo, TotalLength(group))
  }

  /** Neighbours at most `gap` apart. */
  predicate Linked(group: seq<Run>, gap: int) {
    group != [] && forall i :: 0 <= i < |group| - 1 ==> group[i + 1].lo - group[i].hi <= gap
  }

  predicate AllLinked(groups: seq<seq<Run>>, gap: int) {
    forall i :: 0 <= i < |groups| ==> Linked(groups[i], gap)
  }

  /** `right` starts more than `gap` after `left` ends. */
  predicate FarApart(left: seq<Run>, right: seq<Run>, gap: int) {
    left != [] && right != [] && right[0].lo - left[|left| - 1].hi > gap
  }

  predicate AllFarApart(groups: seq<seq<Run>>, gap: int) {
    forall i :: 0 <= i < |groups| - 1 ==> FarApart(groups[i], groups[i + 1], gap)
  }

  /** `groups` cuts the run list exactly at the gaps longer than `gap`. */
  predicate Grouping(groups: seq<seq<Run>>, runs: seq<Run>, gap: int) {
    Flatten(groups) == runs && AllLinked(groups, gap) && AllFarApart(groups, gap)
  }

  /** The next run joins the last group when it is close enough. */
  function AddRun(groups: seq<seq<Run>>, gap: int, r: Run): seq<seq<Run>> {
    if groups == [] then [[r]]
    else
      var last := groups[|groups| - 1];
      if FarApart(last, [r], gap) then groups + [[r]]
      else groups[..|groups| - 1] + [last + [r]]
  }

  function Groups(runs: seq<Run>, gap: int): seq<seq<Run>>
    decreases |runs|
  {
    if runs == [] then [] else AddRun(Groups(runs[..|runs| - 1], gap), gap, runs[|runs| - 1])
  }

  lemma FlattenSnoc(front: seq<seq<Run>>, g: seq<Run>)
    ensures Flatten(front + [g]) == Flatten(front) + g
  {
    FlattenAppend(front, [g]);
    assert [g][1..] == [];
    assert Flatten([g]) == g + [];
  }

  lemma LinkedSnoc(g: seq<Run>, r: Run, gap: int)
    requires Linked(g, gap) && !FarApart(g, [r], gap)
    ensures Linked(g + [r], gap)
  {
  }

  lemma AllLinkedSnoc(front: seq<seq<Run>>, g: seq<Run>, gap: int)
    ensures AllLinked(front + [g], gap) <==> AllLinked(front, gap) && Linked(g, gap)
  {
    var all := front + [g];
    assert forall i :: 0 <= i < |front| ==> all[i] == front[i];
    assert all[|front|] == g;
  }

  lemma FarApartSnoc(front: seq<seq<Run>>, g: seq<Run>, gap: int)
    ensures AllFarApart(front + [g], gap) <==>
            AllFarApart(front, gap) && (front != [] ==> FarApart(front[|front| - 1], g, gap))
  {
    var all := front + [g];
    assert forall i :: 0 <= i < |front| ==> all[i] == front[i];
    assert all[|front|] == g;
    if AllFarApart(all, gap) {
      forall i | 0 <= i < |front| - 1
        ensures FarApart(front[i], front[i + 1], gap)
      {
        assert FarApart(all[i], all[i + 1], gap);
      }
      assert front != [] ==> FarApart(all[|front| - 1], all[|front| - 1 + 1], gap);
    }
  }

  lemma FarApartGrown(left: seq<Run>, g: seq<Run>, r: Run, gap: int)
    requires g != []
    ensures FarApart(left, g + [r], gap) == FarApart(left, g, gap)
  {
  }

  lemma AddRunKeeps(groups: seq<seq<Run>>, runs: seq<Run>, gap: int, r: Run)
    requires Grouping(groups, runs, gap)
    ensures Grouping(AddRun(groups, gap, r), runs + [r], gap)
  {
    hide AllLinked, AllFarApart, Linked, FarApart;
    LinkedOne(r, gap);
    if groups == [] {
      assert runs + [r] == [r];
      FlattenSnoc([], [r]);
      AllLinkedSnoc([], [r], gap);
      FarApartSnoc([], [r], gap);
      assert [] + [[r]] == [[r]];
    } else {
      var front, last := groups[..|groups| - 1], groups[|groups| - 1];
      assert groups == front + [last];
      FlattenSnoc(front, last);
      AllLinkedSnoc(front, last, gap);
      FarApartSnoc(front, last, gap);
      if FarApart(last, [r], gap) {
        FlattenSnoc(groups, [r]);
        AllLinkedSnoc(groups, [r], gap);
        FarApartSnoc(groups, [r], gap);
      } else {
        FlattenSnoc(front, last + [r]);
        Assoc(Flatten(front), last, [r]);
        LinkedSnoc(last, r, gap);
        AllLinkedSnoc(front, last + [r], gap);
        FarApartSnoc(front, last + [r], gap);
        LinkedNotEmpty(last, gap);
        if front != [] {
          FarApartGrown(front[|front| - 1], last, r, gap);
        }
      }
    }
  }

  lemma LinkedOne(r: Run, gap: int)
    ensures Linked([r], gap) && AllLinked([], gap) && AllFarApart([], gap)
  {
  }

  lemma LinkedNotEmpty(g: seq<Run>, gap: int)
    requires Linked(g, gap)
    ensures g != []
  {
  }

  /** The fold makes a grouping ... */
  lemma {:induction false} GroupsExact(runs: seq<Run>, gap: int)
    ensures Grouping(Groups(runs, gap), runs, gap)
    decreases |runs|
  {
    if runs != [] {
      var front := runs[..|runs| - 1];
      GroupsExact(front, gap);
      AddRunKeeps(Groups(front, gap), front, gap, runs[|runs| - 1]);
      assert runs == front + [runs[|runs| - 1]];
    }
  }

  predicate NoneEmpty(groups: seq<seq<Run>>) {
    forall i :: 0 <= i < |groups| ==> groups[i] != []
  }

  lemma NoneEmptySnoc(front: seq<seq<Run>>, g: seq<Run>)
    ensures NoneEmpty(front + [g]) <==> NoneEmpty(front) && g != []
  {
    var all := front + [g];
    assert forall i :: 0 <= i < |front| ==> all[i] == front[i];
    assert all[|front|] == g;
  }

  function ClustersOf(groups: seq<seq<Run>>): (r: seq<Cluster>)
    requires NoneEmpty(groups)
    ensures |r| == |groups|
    ensures forall i :: 0 <= i < |r| ==> r[i] == ClusterOf(groups[i])
  {
    if groups == [] then []
    else
      ClustersOf(groups[..|groups| - 1]) + [ClusterOf(groups[|groups| - 1])]
  }

  lemma GroupsNotEmpty(runs: seq<Run>, gap: int)
    ensures NoneEmpty(Groups(runs, gap))
  {
    GroupsExact(runs, gap);
    var groups := Groups(runs, gap);
    forall i | 0 <= i < |groups|
      ensures groups[i] != []
    {
      LinkedNotEmpty(groups[i], gap);
    }
  }

  /** One cluster per group. */
  function Clusters(runs: seq<Run>, gap: int): seq<Cluster> {
    GroupsNotEmpty(runs, gap);
    ClustersOf(Groups(runs, gap))
  }

  lemma {:induction false} TotalSnoc(runs: seq<Run>, r: Run)
    ensures TotalLength(runs + [r]) == TotalLength(runs) + Length(r)
  {
    if runs == [] {
      assert runs + [r] == [r];
    } else {
      TotalSnoc(runs[1..], r);
      assert (runs + [r])[1..] == runs[1..] + [r];
    }
  }

  /** What the loop body does to the cluster list is what `AddRun` does to the groups. */
  lemma ClusterStep(runs: seq<Run>, gap: int, r: Run)
    ensures var cs := Clusters(runs, gap);
      Clusters(runs + [r], gap)
      == if cs != [] && r.lo - cs[|cs| - 1].End() <= gap then
           cs[..|cs| - 1]
           + [Cluster(cs[|cs| - 1].start, r.hi - cs[|cs| - 1].start, cs[|cs| - 1].edited + Length(r))]
         else cs + [Cluster(r.lo, Length(r), Length(r))]
  {
    var groups := Groups(runs, gap);
    GroupsNotEmpty(runs, gap);
    GroupsNotEmpty(runs + [r], gap);
    assert (runs + [r])[..|runs|] == runs;
    assert Groups(runs + [r], gap) == AddRun(groups, gap, r);
    if groups != [] {
      TotalSnoc(groups[|groups| - 1], r);
    }
    assert TotalLength([r]) == Length(r);
  }

  /** `cluster_runs`. */
  method ClusterRuns(runs: seq<Run>, gap: int) returns (clusters: seq<Cluster>)
    ensures clusters == Clusters(runs, gap)
  {
    hide Clusters;
    clusters := [];
    NoClusters(gap);
    for k := 0 to |runs|
      invariant clusters == Clusters(runs[..k], gap)
    {
      var r := runs[k];
      assert runs[..k + 1] == runs[..k] + [r];
      ClusterStep(runs[..k], gap, r);
      if clusters != [] && r.lo - clusters[|clusters| - 1].End() <= gap {
        var last := clusters[|clusters| - 1];
        clusters := clusters[..|clusters| - 1] + [Cluster(last.start, r.hi - last.start, last.edited + Length(r))];
      } else {
        clusters := clusters + [Cluster(r.lo, Length(r), Length(r))];
      }
    }
    assert runs[..|runs|] == runs;
  }

  lemma NoClusters(gap: int)
    ensures Clusters([], gap) == []
  {
  }

  // ------------------------------------------------------------------
  // What the clusters are
  // ------------------------------------------------------------------

  lemma FlattenNotEmpty(groups: seq<seq<Run>>)
    requires NoneEmpty(groups) && groups != []
    ensures Flatten(groups) != []
  {
    assert |Flatten(groups)| >= |groups[0]|;
  }

  lemma AllLinkedNoneEmpty(groups: seq<seq<Run>>, gap: int)
    requires AllLinked(groups, gap)
    ensures NoneEmpty(groups)
  {
    forall i | 0 <= i < |groups|
      ensures groups[i] != []
    {
      LinkedNotEmpty(groups[i], gap);
    }
  }

  lemma LinkedFront(g: seq<Run>, gap: int)
    requires Linked(g, gap) && |g| > 1
    ensures Linked(g[..|g| - 1], gap) && !FarApart(g[..|g| - 1], [g[|g| - 1]], gap)
  {
    assert g[|g| - 2 + 1].lo - g[|g| - 2].hi <= gap;
  }

  /** Taking the last run off a grouping leaves a grouping that `AddRun` extends back. */
  lemma PeelRun(groups: seq<seq<Run>>, runs: seq<Run>, gap: int) returns (less: seq<seq<Run>>)
    requires runs != [] && Grouping(groups, runs, gap)
    ensures Grouping(less, runs[..|runs| - 1], gap)
    ensures groups == AddRun(less, gap, runs[|runs| - 1])
  {
    hide AllLinked, AllFarApart, Linked, FarApart;
    AllLinkedNoneEmpty(groups, gap);
    assert groups == [] ==> Flatten(groups) == [];
    var front, g := groups[..|groups| - 1], groups[|groups| - 1];
    assert groups == front + [g];
    FlattenSnoc(front, g);
    AllLinkedSnoc(front, g, gap);
    FarApartSnoc(front, g, gap);
    LinkedNotEmpty(g, gap);
    var r := g[|g| - 1];
    assert runs[|runs| - 1] == r;
    if |g| == 1 {
      less := front;
      assert g == [r];
      assert Flatten(front) == runs[..|runs| - 1];
    } else {
      var h := g[..|g| - 1];
      assert g == h + [r];
      less := front + [h];
      FlattenSnoc(front, h);
      Assoc(Flatten(front), h, [r]);
      assert Flatten(less) == runs[..|runs| - 1];
      LinkedFront(g, gap);
      AllLinkedSnoc(front, h, gap);
      FarApartSnoc(front, h, gap);
      if front != [] {
        FarApartGrown(front[|front| - 1], h, r, gap);
      }
      assert less[..|less| - 1] == front && less[|less| - 1] == h;
    }
  }

  /** ... and the only one. */
  lemma {:induction false} GroupingUnique(groups: seq<seq<Run>>, runs: seq<Run>, gap: int)
    requires Grouping(groups, runs, gap)
    ensures groups == Groups(runs, gap)
    decreases |runs|
  {
    if runs == [] {
      AllLinkedNoneEmpty(groups, gap);
      if groups != [] {
        FlattenNotEmpty(groups);
      }
    } else {
      var less := PeelRun(groups, runs, gap);
      GroupingUnique(less, runs[..|runs| - 1], gap);
    }
  }

  function TotalEdited(clusters: seq<Cluster>): int
    decreases |clusters|
  {
    if clusters == [] then 0 else TotalEdited(clusters[..|clusters| - 1]) + clusters[|clusters| - 1].edited
  }

  lemma {:induction false} TotalConcat(a: seq<Run>, b: seq<Run>)
    ensures TotalLength(a + b) == TotalLength(a) + TotalLength(b)
  {
    if a == [] {
      assert a + b == b;
    } else {
      TotalConcat(a[1..], b);
      assert (a + b)[1..] == a[1..] + b;
    }
  }

  lemma {:induction false} EditedIsFlat(groups: seq<seq<Run>>)
    requires NoneEmpty(groups)
    ensures TotalEdited(ClustersOf(groups)) == TotalLength(Flatten(groups))
    decreases |groups|
  {
    if groups != [] {
      var front, g := groups[..|groups| - 1], groups[|groups| - 1];
      assert groups == front + [g];
      NoneEmptySnoc(front, g);
      EditedIsFlat(front);
      FlattenSnoc(front, g);
      TotalConcat(Flatten(front), g);
      assert ClustersOf(groups)[..|groups| - 1] == ClustersOf(front);
    }
  }

  /** No edited byte is lost or counted twice. */
  lemma EditedConserved(runs: seq<Run>, gap: int)
    ensures TotalEdited(Clusters(runs, gap)) == TotalLength(runs)
  {
    GroupsNotEmpty(runs, gap);
    GroupsExact(runs, gap);
    EditedIsFlat(Groups(runs, gap));
  }

  /** Clusters stay more than the merge gap apart. */
  lemma ClustersFarApart(runs: seq<Run>, gap: int, k: nat)
    requires k + 1 < |Clusters(runs, gap)|
    ensures Clusters(runs, gap)[k + 1].start - Clusters(runs, gap)[k].End() > gap
  {
    GroupsNotEmpty(runs, gap);
    GroupsExact(runs, gap);
    var groups := Groups(runs, gap);
    assert FarApart(groups[k], groups[k + 1], gap);
  }

  /** All edited bytes of both images are in the clusters when no run is too short to count. */
  lemma AllEditsClustered(a: Bytes, b: Bytes, runs: seq<Run>, minRun: int, gap: int)
    requires minRun <= 1 && Spaced(runs)
    requires forall r :: r in runs <==> Maximal(DiffSet(a, b), r) && Length(r) >= minRun
    ensures TotalEdited(Clusters(runs, gap)) == |DiffSet(a, b)|
  {
    EditedConserved(runs, gap);
    ListsCount(runs, DiffSet(a, b), 0, Min(|a|, |b|));
  }

  lemma {:induction false} SpanBound(group: seq<Run>)
    requires group != [] && Spaced(group) && Proper(group)
    ensures 0 < TotalLength(group) <= group[|group| - 1].hi - group[0].lo
  {
    assert group[0] in group;
    if |group| > 1 {
      var rest := group[1..];
      assert forall r <- rest :: r in group;
      SpanBound(rest);
      assert rest[|rest| - 1] == group[|group| - 1];
    }
  }

  lemma SpacedPart(a: seq<Run>, b: seq<Run>, c: seq<Run>)
    requires Spaced(a + b + c) && Proper(a + b + c)
    ensures Spaced(b) && Proper(b)
  {
    var all := a + b + c;
    assert forall i :: 0 <= i < |b| ==> all[|a| + i] == b[i];
    assert forall r <- b :: r in all;
  }

  lemma FlattenAround(groups: seq<seq<Run>>, k: nat)
    requires k < |groups|
    ensures Flatten(groups) == Flatten(groups[..k]) + groups[k] + Flatten(groups[k + 1..])
  {
    hide Flatten;
    assert groups == groups[..k + 1] + groups[k + 1..];
    assert groups[..k + 1] == groups[..k] + [groups[k]];
    FlattenAppend(groups[..k + 1], groups[k + 1..]);
    FlattenSnoc(groups[..k], groups[k]);
  }

  /** Density is a fraction: a cluster spans at least its edited bytes, and has some. */
  lemma DensityBounds(runs: seq<Run>, gap: int, k: nat)
    requires Spaced(runs) && Proper(runs) && k < |Clusters(runs, gap)|
    ensures 0 < Clusters(runs, gap)[k].edited <= Clusters(runs, gap)[k].length
  {
    GroupsNotEmpty(runs, gap);
    GroupsExact(runs, gap);
    var groups := Groups(runs, gap);
    FlattenAround(groups, k);
    SpacedPart(Flatten(groups[..k]), groups[k], Flatten(groups[k + 1..]));
    SpanBound(groups[k]);
  }
}
