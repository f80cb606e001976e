/** Clustering of cipher samples by byte equality: `cluster_bucket`. */
module ClusterSurvey {
  import opened Basics
  import opened Connectivity
  import opened UnionFind

  type Id = string

  datatype Error = ZeroDivision

  /** Positions where two samples agree, up to the shorter one. */
  function EqualBytes(a: Bytes, b: Bytes): nat {
    if a == [] || b == [] then 0 else (if a[0] == b[0] then 1 else 0) + EqualBytes(a[1..], b[1..])
  }

  /** `100 * eq / len(sa) >= threshold`; the length is the first sample's. */
  predicate Similar(a: Bytes, b: Bytes, threshold: real) {
    a != [] && 100.0 * EqualBytes(a, b) as real / |a| as real >= threshold
  }

  /** The sorted IDs of a bucket and the sample of each. */
  predicate IsBucket(ids: seq<Id>, samples: map<Id, Bytes>) {
    (forall i, j :: 0 <= i < j < |ids| ==> ids[i] != ids[j]) && forall x <- ids :: x in samples
  }

  predicate Edge(ids: seq<Id>, samples: map<Id, Bytes>, threshold: real, p: nat, q: nat)
    requires IsBucket(ids, samples)
  {
    p < q < |ids| && Similar(samples[ids[p]], samples[ids[q]], threshold)
  }

  /** The similar pairs met before the pair `(i, j)` of the nested loops. */
  ghost function EdgesBefore(ids: seq<Id>, samples: map<Id, Bytes>, threshold: real, i: nat, j: nat): set<(Id, Id)>
    requires IsBucket(ids, samples)
  {
    set p: nat, q: nat | p < |ids| && q < |ids| && (p < i || (p == i && q < j)) && Edge(ids, samples, threshold, p, q)
      :: (ids[p], ids[q])
  }

  /** All similar pairs. */
  ghost function Edges(ids: seq<Id>, samples: map<Id, Bytes>, threshold: real): set<(Id, Id)>
    requires IsBucket(ids, samples)
  {
    EdgesBefore(ids, samples, threshold, |ids|, 0)
  }

  lemma NextPair(ids: seq<Id>, samples: map<Id, Bytes>, threshold: real, i: nat, j: nat)
    requires IsBucket(ids, samples) && i < j < |ids|
    ensures EdgesBefore(ids, samples, threshold, i, j + 1) == EdgesBefore(ids, samples, threshold, i, j) +
      if Similar(samples[ids[i]], samples[ids[j]], threshold) then {(ids[i], ids[j])} else {}
  {
    assert Edge(ids, samples, threshold, i, j) == Similar(samples[ids[i]], samples[ids[j]], threshold);
  }

  lemma NextRow(ids: seq<Id>, samples: map<Id, Bytes>, threshold: real, i: nat)
    requires IsBucket(ids, samples) && i < |ids|
    ensures EdgesBefore(ids, samples, threshold, i, i + 1) == EdgesBefore(ids, samples, threshold, i, 0)
    ensures EdgesBefore(ids, samples, threshold, i, |ids|) == EdgesBefore(ids, samples, threshold, i + 1, 0)
  {
  }

  // ------------------------------------------------------------------
  // What similarity means
  // ------------------------------------------------------------------

  /** The positions before `n` at which the samples agree. */
  ghost function Agreeing(a: Bytes, b: Bytes, n: nat): set<int>
    requires n <= |a| && n <= |b|
  {
    set i | 0 <= i < n && a[i] == b[i]
  }

  lemma {:induction false} EqualBytesSnoc(a: Bytes, b: Bytes, x: Byte, y: Byte)
    requires |a| == |b|
    ensures EqualBytes(a + [x], b + [y]) == EqualBytes(a, b) + if x == y then 1 else 0
  {
    if a == [] {
      assert [x][1..] == [] && [y][1..] == [];
    } else {
      EqualBytesSnoc(a[1..], b[1..], x, y);
      assert (a + [x])[1..] == a[1..] + [x] && (b + [y])[1..] == b[1..] + [y];
    }
  }

  /** What the longer sample has beyond the shorter does not count. */
  lemma {:induction false} EqualBytesCommon(a: Bytes, b: Bytes)
    ensures EqualBytes(a, b) == EqualBytes(a[..Min(|a|, |b|)], b[..Min(|a|, |b|)])
  {
    var n := Min(|a|, |b|);
    if n > 0 {
      EqualBytesCommon(a[1..], b[1..]);
      assert a[..n][1..] == a[1..][..n - 1] && b[..n][1..] == b[1..][..n - 1];
    }
  }

  lemma {:induction false} EqualBytesUpTo(a: Bytes, b: Bytes, n: nat)
    requires n <= |a| && n <= |b|
    ensures EqualBytes(a[..n], b[..n]) == |Agreeing(a, b, n)|
    decreases n
  {
    if n > 0 {
      EqualBytesUpTo(a, b, n - 1);
      EqualBytesSnoc(a[..n - 1], b[..n - 1], a[n - 1], b[n - 1]);
      assert a[..n] == a[..n - 1] + [a[n - 1]] && b[..n] == b[..n - 1] + [b[n - 1]];
      assert Agreeing(a, b, n) == Agreeing(a, b, n - 1) + if a[n - 1] == b[n - 1] then {n - 1} else {};
    } else {
      assert Agreeing(a, b, 0) == {};
    }
  }

  /** The loop's sum is the number of positions at which the samples agree. */
  lemma EqualBytesExact(a: Bytes, b: Bytes)
    ensures EqualBytes(a, b) == |set i | 0 <= i < Min(|a|, |b|) && a[i] == b[i]|
  {
    var n := Min(|a|, |b|);
    EqualBytesCommon(a, b);
    EqualBytesUpTo(a, b, n);
    assert Agreeing(a, b, n) == set i | 0 <= i < Min(|a|, |b|) && a[i] == b[i];
  }

  lemma PercentAtLeast(count: nat, length: nat, threshold: real)
    requires length > 0
    ensures 100.0 * count as real / length as real >= threshold
      <==> 100.0 * count as real >= threshold * length as real
  {
    var q := 100.0 * count as real / length as real;
    assert q * length as real == 100.0 * count as real;
  }

  /** Two samples are joined exactly when they agree at the threshold's share of the first one's length. */
  lemma EdgesExact(ids: seq<Id>, samples: map<Id, Bytes>, threshold: real, p: nat, q: nat)
    requires IsBucket(ids, samples) && p < q < |ids|
    ensures var a, b := samples[ids[p]], samples[ids[q]];
      (ids[p], ids[q]) in Edges(ids, samples, threshold) <==>
        && a != []
        && 100.0 * |set i | 0 <= i < Min(|a|, |b|) && a[i] == b[i]| as real >= threshold * |a| as real
  {
    var a, b := samples[ids[p]], samples[ids[q]];
    EqualBytesExact(a, b);
    if a != [] {
      PercentAtLeast(EqualBytes(a, b), |a|, threshold);
    }
    assert Edge(ids, samples, threshold, p, q) <==> Similar(a, b, threshold);
  }

  /** No other pair of IDs is joined. */
  lemma EdgesOnly(ids: seq<Id>, samples: map<Id, Bytes>, threshold: real, x: Id, y: Id)
    requires IsBucket(ids, samples) && (x, y) in Edges(ids, samples, threshold)
    ensures exists p: nat, q: nat :: p < q < |ids| && ids[p] == x && ids[q] == y
  {
  }

  // ------------------------------------------------------------------
  // Clusters
  // ------------------------------------------------------------------

  /** The IDs connected to `x`, in the order of `ids`. */
  ghost function Component(ids: seq<Id>, edges: set<(Id, Id)>, x: Id): seq<Id> {
    if ids == [] then []
    else Component(ids[..|ids| - 1], edges, x) + if Connected(edges, ids[|ids| - 1], x) then [ids[|ids| - 1]] else []
  }

  /** Every cluster is the component of each of its members, and every ID has a cluster. */
  ghost predicate AreComponents(cs: seq<seq<Id>>, ids: seq<Id>, edges: set<(Id, Id)>) {
    && (forall c <- cs :: c != [] && forall x <- c :: c == Component(ids, edges, x))
    && (forall x <- ids :: Component(ids, edges, x) in cs)
    && (forall i, j :: 0 <= i < j < |cs| ==> cs[i] != cs[j])
  }

  /** `x` stands before `y`. */
  ghost predicate Before(ids: seq<Id>, x: Id, y: Id) {
    exists p, q :: 0 <= p < q < |ids| && ids[p] == x && ids[q] == y
  }

  /** `c` is larger than `d`, or of its size with an earlier first member. */
  ghost predicate Precedes(ids: seq<Id>, c: seq<Id>, d: seq<Id>)
    requires c != [] && d != []
  {
    |c| > |d| || (|c| == |d| && Before(ids, c[0], d[0]))
  }

  predicate NoneEmpty(cs: seq<seq<Id>>) {
    forall i :: 0 <= i < |cs| ==> cs[i] != []
  }

  /** Largest first, and clusters of one size by their first members. */
  ghost predicate InOrder(cs: seq<seq<Id>>, ids: seq<Id>) {
    NoneEmpty(cs) && forall i, j :: 0 <= i < j < |cs| ==> Precedes(ids, cs[i], cs[j])
  }

  /** By their first members alone. */
  ghost predicate ByFirst(cs: seq<seq<Id>>, ids: seq<Id>) {
    NoneEmpty(cs) && forall i, j :: 0 <= i < j < |cs| ==> Before(ids, cs[i][0], cs[j][0])
  }

  /** A stable insertion by size, largest first. */
  function Insert(cs: seq<seq<Id>>, c: seq<Id>): (r: seq<seq<Id>>)
    ensures forall d :: d in r <==> d in cs || d == c
  {
    if cs == [] then [c]
    else if |cs[0]| < |c| then [c] + cs
    else [cs[0]] + Insert(cs[1..], c)
  }

  /** `sorted(groups, key=len, reverse=True)`, which keeps groups of equal size in order. */
  function BySize(cs: seq<seq<Id>>): (r: seq<seq<Id>>)
    ensures forall d :: d in r <==> d in cs
  {
    if cs == [] then [] else Insert(BySize(cs[..|cs| - 1]), cs[|cs| - 1])
  }

  predicate Distinct(cs: seq<seq<Id>>) {
    forall i, j :: 0 <= i < j < |cs| ==> cs[i] != cs[j]
  }

  lemma {:induction false} InsertDistinct(cs: seq<seq<Id>>, c: seq<Id>)
    requires Distinct(cs) && c !in cs
    ensures Distinct(Insert(cs, c))
  {
    if cs != [] && |cs[0]| >= |c| {
      InsertDistinct(cs[1..], c);
      var r := Insert(cs[1..], c);
      assert cs[0] !in r;
    }
  }

  lemma {:induction false} BySizeDistinct(cs: seq<seq<Id>>)
    requires Distinct(cs)
    ensures Distinct(BySize(cs))
  {
    if cs != [] {
      BySizeDistinct(cs[..|cs| - 1]);
      InsertDistinct(BySize(cs[..|cs| - 1]), cs[|cs| - 1]);
    }
  }

  /** A cluster whose first member stands behind those of `cs` goes where it belongs. */
  lemma {:induction false} InsertInOrder(cs: seq<seq<Id>>, c: seq<Id>, ids: seq<Id>)
    requires InOrder(cs, ids) && c != [] && forall d <- cs :: d != [] && Before(ids, d[0], c[0])
    ensures InOrder(Insert(cs, c), ids)
    decreases |cs|
  {
    hide Before;
    if cs != [] && |cs[0]| >= |c| {
      assert forall d <- cs[1..] :: d in cs;
      InsertInOrder(cs[1..], c, ids);
      var r := Insert(cs[1..], c);
      forall d | d in r
        ensures Precedes(ids, cs[0], d)
      {
        assert d in cs[1..] || d == c;
        assert cs[0] in cs;
      }
    }
  }

  lemma {:induction false} BySizeInOrder(cs: seq<seq<Id>>, ids: seq<Id>)
    requires ByFirst(cs, ids)
    ensures InOrder(BySize(cs), ids)
    decreases |cs|
  {
    if cs != [] {
      hide Before, Precedes;
      var front, c := cs[..|cs| - 1], cs[|cs| - 1];
      BySizeInOrder(front, ids);
      forall d | d in BySize(front)
        ensures d != [] && Before(ids, d[0], c[0])
      {
        var i :| 0 <= i < |front| && front[i] == d;
        assert cs[i] == d;
      }
      InsertInOrder(BySize(front), c, ids);
    }
  }

  // ------------------------------------------------------------------
  // Grouping by root
  // ------------------------------------------------------------------

  /** The IDs whose root is `r`, in order. */
  function ClassOf(ids: seq<Id>, rep: map<Id, Id>, r: Id): seq<Id>
    requires forall x <- ids :: x in rep
  {
    if ids == [] then []
    else
      assert ids[|ids| - 1] in ids;
      ClassOf(ids[..|ids| - 1], rep, r) + if rep[ids[|ids| - 1]] == r then [ids[|ids| - 1]] else []
  }

  /** The classes are the components. */
  lemma {:induction false} ClassIsComponent(ids: seq<Id>, rep: map<Id, Id>, edges: set<(Id, Id)>, x: Id)
    requires (forall y <- ids :: y in rep) && x in rep && Labels(rep, edges)
    ensures ClassOf(ids, rep, rep[x]) == Component(ids, edges, x)
  {
    if ids != [] {
      ClassIsComponent(ids[..|ids| - 1], rep, edges, x);
      LabelsExact(rep, edges, ids[|ids| - 1], x);
    }
  }

  lemma {:induction false} ClassMembers(ids: seq<Id>, rep: map<Id, Id>, r: Id, x: Id)
    requires forall y <- ids :: y in rep
    ensures x in ClassOf(ids, rep, r) <==> x in ids && rep[x] == r
  {
    if ids != [] {
      ClassMembers(ids[..|ids| - 1], rep, r, x);
      assert x in ids <==> x in ids[..|ids| - 1] || x == ids[|ids| - 1];
    }
  }

  lemma {:induction false} EmptyClass(ids: seq<Id>, rep: map<Id, Id>, r: Id)
    requires forall x <- ids :: x in rep && rep[x] != r
    ensures ClassOf(ids, rep, r) == []
  {
    if ids != [] {
      EmptyClass(ids[..|ids| - 1], rep, r);
    }
  }

  /** `roots` lists the roots met so far, once each, and `groups` the IDs under each. */
  ghost predicate Grouped(groups: seq<seq<Id>>, roots: seq<Id>, ids: seq<Id>, rep: map<Id, Id>)
    requires forall x <- ids :: x in rep
  {
    && |groups| == |roots|
    && (forall i, j :: 0 <= i < j < |roots| ==> roots[i] != roots[j])
    && (forall i :: 0 <= i < |roots| ==> groups[i] == ClassOf(ids, rep, roots[i]) && groups[i] != [])
    && (forall x <- ids :: rep[x] in roots)
    && ByFirst(groups, ids)
  }

  lemma BySizeComponents(cs: seq<seq<Id>>, ids: seq<Id>, edges: set<(Id, Id)>)
    requires AreComponents(cs, ids, edges)
    ensures AreComponents(BySize(cs), ids, edges)
  {
    BySizeDistinct(cs);
  }

  lemma GroupedAreComponents(groups: seq<seq<Id>>, roots: seq<Id>, ids: seq<Id>, rep: map<Id, Id>, edges: set<(Id, Id)>)
    requires (forall x <- ids :: x in rep) && Labels(rep, edges) && Grouped(groups, roots, ids, rep)
    ensures AreComponents(groups, ids, edges)
  {
    forall i | 0 <= i < |groups|
      ensures forall x <- groups[i] :: x in rep && rep[x] == roots[i] && groups[i] == Component(ids, edges, x)
    {
      forall x | x in groups[i]
        ensures x in rep && rep[x] == roots[i] && groups[i] == Component(ids, edges, x)
      {
        ClassMembers(ids, rep, roots[i], x);
        ClassIsComponent(ids, rep, edges, x);
      }
    }
    forall x | x in ids
      ensures Component(ids, edges, x) in groups
    {
      var i :| 0 <= i < |roots| && roots[i] == rep[x];
      ClassIsComponent(ids, rep, edges, x);
      assert groups[i] == Component(ids, edges, x);
    }
    forall i, j | 0 <= i < j < |groups|
      ensures groups[i] != groups[j]
    {
      assert groups[i][0] in groups[i] && rep[groups[i][0]] == roots[i];
      assert groups[j][0] in groups[j] && rep[groups[j][0]] == roots[j];
    }
  }

  // ------------------------------------------------------------------
  // The survey
  // ------------------------------------------------------------------

  /** `uf` knows every ID, and its roots label the components of `edges`. */
  ghost predicate Tracks(uf: UF<Id>, ids: seq<Id>, edges: set<(Id, Id)>)
    reads uf
  {
    uf.Valid() && (forall x <- ids :: x in uf.parent) && Labels(uf.Roots(), edges)
  }

  /** `uf.union(a, b)` adds an edge. */
  method AddEdge(uf: UF<Id>, ids: seq<Id>, a: Id, b: Id, ghost edges: set<(Id, Id)>)
    requires Tracks(uf, ids, edges) && a in ids && b in ids
    modifies uf
    ensures Tracks(uf, ids, edges + {(a, b)})
  {
    MergeLabels(uf.Roots(), edges, a, b);
    uf.Union(a, b);
  }

  /** One row of the pair loop: `ids[i]` against every later ID. */
  method CompareRow(uf: UF<Id>, ids: seq<Id>, samples: map<Id, Bytes>, threshold: real, i: nat)
    requires IsBucket(ids, samples) && i < |ids|
    requires Tracks(uf, ids, EdgesBefore(ids, samples, threshold, i, 0))
    modifies uf
    ensures Tracks(uf, ids, EdgesBefore(ids, samples, threshold, i + 1, 0))
  {
    var sa := samples[ids[i]];
    NextRow(ids, samples, threshold, i);
    for j := i + 1 to |ids|
      invariant Tracks(uf, ids, EdgesBefore(ids, samples, threshold, i, j))
    {
      ghost var edges := EdgesBefore(ids, samples, threshold, i, j);
      NextPair(ids, samples, threshold, i, j);
      if Similar(sa, samples[ids[j]], threshold) {
        AddEdge(uf, ids, ids[i], ids[j], edges);
      } else {
        assert edges + {} == edges;
      }
    }
  }

  /** The dictionary step `groups[r].append(e)`; a new root opens a group at the end. */
  method Place(groups: seq<seq<Id>>, seen: seq<Id>, e: Id, r: Id, ghost done: seq<Id>, ghost rep: map<Id, Id>)
    returns (groups': seq<seq<Id>>, seen': seq<Id>)
    requires (forall x <- done :: x in rep) && e in rep && r == rep[e] && Grouped(groups, seen, done, rep)
    ensures (forall x <- done + [e] :: x in rep) && Grouped(groups', seen', done + [e], rep)
  {
    var at := Index(seen, r);
    if at < |seen| {
      JoinsGroup(groups, seen, done, rep, e, at);
      groups', seen' := groups[at := groups[at] + [e]], seen;
    } else {
      OpensGroup(groups, seen, done, rep, e);
      groups', seen' := groups + [[e]], seen + [r];
    }
  }

  lemma NothingGrouped(rep: map<Id, Id>)
    ensures Grouped([], [], [], rep)
  {
  }

  /** `groups[uf.find(e)].append(e)` for every ID, groups in order of first appearance. */
  method GroupByRoot(uf: UF<Id>, ids: seq<Id>) returns (groups: seq<seq<Id>>, ghost roots: seq<Id>)
    requires uf.Valid() && forall x <- ids :: x in uf.Roots()
    modifies uf
    ensures uf.Valid() && uf.Roots() == old(uf.Roots())
    ensures forall x <- ids :: x in uf.Roots()
    ensures Grouped(groups, roots, ids, uf.Roots())
  {
    hide Grouped;
    groups := [];
    var seen: seq<Id> := [];
    ghost var rep := uf.Roots();
    NothingGrouped(rep);
    for k := 0 to |ids|
      invariant uf.Valid() && uf.Roots() == rep
      invariant Grouped(groups, seen, ids[..k], rep)
    {
      assert ids[k] in rep && ids[k] in uf.Roots();
      var r := uf.Find(ids[k]);
      groups, seen := Place(groups, seen, ids[k], r, ids[..k], rep);
      assert ids[..k + 1] == ids[..k] + [ids[k]];
    }
    assert ids[..|ids|] == ids;
    roots := seen;
  }

  function Index(s: seq<Id>, x: Id): (i: nat)
    ensures i <= |s| && (i < |s| ==> s[i] == x)
    ensures i == |s| ==> x !in s
  {
    if s == [] then 0 else if s[0] == x then 0 else 1 + Index(s[1..], x)
  }

  lemma ClassSnoc(ids: seq<Id>, rep: map<Id, Id>, e: Id, r: Id)
    requires (forall x <- ids :: x in rep) && e in rep
    ensures ClassOf(ids + [e], rep, r) == ClassOf(ids, rep, r) + if rep[e] == r then [e] else []
  {
    assert (ids + [e])[..|ids|] == ids;
  }

  lemma BeforeStays(ids: seq<Id>, e: Id, x: Id, y: Id)
    requires Before(ids, x, y)
    ensures Before(ids + [e], x, y)
  {
    var p, q :| 0 <= p < q < |ids| && ids[p] == x && ids[q] == y;
    assert (ids + [e])[p] == x && (ids + [e])[q] == y;
  }

  lemma FirstsStay(groups: seq<seq<Id>>, groups': seq<seq<Id>>, ids: seq<Id>, e: Id)
    requires ByFirst(groups, ids) && |groups'| == |groups| && NoneEmpty(groups')
    requires forall i :: 0 <= i < |groups| ==> groups'[i] != [] && groups[i] != [] && groups'[i][0] == groups[i][0]
    ensures ByFirst(groups', ids + [e])
  {
    hide Before;
    forall i, j | 0 <= i < j < |groups'|
      ensures Before(ids + [e], groups'[i][0], groups'[j][0])
    {
      BeforeStays(ids, e, groups[i][0], groups[j][0]);
    }
  }

  lemma NewFirst(groups: seq<seq<Id>>, ids: seq<Id>, e: Id)
    requires ByFirst(groups, ids) && forall i :: 0 <= i < |groups| ==> groups[i] != [] && groups[i][0] in ids
    ensures ByFirst(groups + [[e]], ids + [e])
  {
    var groups', ids' := groups + [[e]], ids + [e];
    forall i, j | 0 <= i < j < |groups'|
      ensures Before(ids', groups'[i][0], groups'[j][0])
    {
      if j < |groups| {
        BeforeStays(ids, e, groups[i][0], groups[j][0]);
      } else {
        var p :| 0 <= p < |ids| && ids[p] == groups[i][0];
        assert ids'[p] == groups'[i][0] && ids'[|ids|] == e;
      }
    }
  }

  /** `e` joins the group of a root already seen. */
  lemma JoinsGroup(groups: seq<seq<Id>>, roots: seq<Id>, ids: seq<Id>, rep: map<Id, Id>, e: Id, at: nat)
    requires (forall x <- ids :: x in rep) && e in rep && Grouped(groups, roots, ids, rep)
    requires at < |roots| && roots[at] == rep[e]
    ensures Grouped(groups[at := groups[at] + [e]], roots, ids + [e], rep)
  {
    var groups' := groups[at := groups[at] + [e]];
    forall i | 0 <= i < |roots|
      ensures groups'[i] == ClassOf(ids + [e], rep, roots[i]) && groups'[i] != []
    {
      ClassSnoc(ids, rep, e, roots[i]);
      assert i != at ==> roots[i] != rep[e];
    }
    FirstsStay(groups, groups', ids, e);
  }

  /** `e` is the first ID under a new root. */
  lemma OpensGroup(groups: seq<seq<Id>>, roots: seq<Id>, ids: seq<Id>, rep: map<Id, Id>, e: Id)
    requires (forall x <- ids :: x in rep) && e in rep && Grouped(groups, roots, ids, rep)
    requires rep[e] !in roots
    ensures Grouped(groups + [[e]], roots + [rep[e]], ids + [e], rep)
  {
    var groups', roots' := groups + [[e]], roots + [rep[e]];
    ClassSnoc(ids, rep, e, rep[e]);
    EmptyClass(ids, rep, rep[e]);
    forall i | 0 <= i < |roots'|
      ensures groups'[i] == ClassOf(ids + [e], rep, roots'[i]) && groups'[i] != []
    {
      if i < |roots| {
        ClassSnoc(ids, rep, e, roots[i]);
        assert roots[i] in roots;
      }
    }
    forall i | 0 <= i < |groups|
      ensures groups[i][0] in ids
    {
      ClassMembers(ids, rep, roots[i], groups[i][0]);
    }
    NewFirst(groups, ids, e);
  }

  /** The classes of the table, sorted by size. */
  method Collect(uf: UF<Id>, ids: seq<Id>, ghost edges: set<(Id, Id)>) returns (clusters: seq<seq<Id>>)
    requires Tracks(uf, ids, edges)
    modifies uf
    ensures AreComponents(clusters, ids, edges) && InOrder(clusters, ids)
  {
    hide AreComponents, InOrder, ByFirst, BySize;
    var groups, roots := GroupByRoot(uf, ids);
    BySizeInOrder(groups, ids);
    GroupedAreComponents(groups, roots, ids, uf.Roots(), edges);
    BySizeComponents(groups, ids, edges);
    clusters := BySize(groups);
  }

  /**
   The clusters are exactly the connected components of the similarity graph, largest first and
   those of one size by their first IDs;
   the survey divides by zero exactly when a sample other than the last is empty.
   */
  method ClusterBucket(ids: seq<Id>, samples: map<Id, Bytes>, threshold: real) returns (r: Result<seq<seq<Id>>, Error>)
    requires IsBucket(ids, samples)
    ensures r.Ok? <==> forall i :: 0 <= i < |ids| - 1 ==> samples[ids[i]] != []
    ensures r.Ok? ==> AreComponents(r.value, ids, Edges(ids, samples, threshold)) && InOrder(r.value, ids)
  {
    hide AreComponents, InOrder;
    var uf := new UF(ids);
    InitialLabels(uf.Roots(), EdgesBefore(ids, samples, threshold, 0, 0));
    for i := 0 to |ids|
      invariant fresh(uf) && Tracks(uf, ids, EdgesBefore(ids, samples, threshold, i, 0))
      invariant forall k :: 0 <= k < i && k < |ids| - 1 ==> samples[ids[k]] != []
    {
      if i < |ids| - 1 && samples[ids[i]] == [] {
        return Err(ZeroDivision);
      }
      CompareRow(uf, ids, samples, threshold, i);
    }
    var clusters := Collect(uf, ids, Edges(ids, samples, threshold));
    r := Ok(clusters);
  }

  lemma InitialLabels(rep: map<Id, Id>, none: set<(Id, Id)>)
    requires none == {} && forall x <- rep :: rep[x] == x
    ensures Labels(rep, none)
  {
    forall x | x in rep
      ensures Connected(none, x, rep[x])
    {
      Reflexive(none, x);
    }
  }

  // ------------------------------------------------------------------
  // Thresholds
  // ------------------------------------------------------------------

  /** Raising the threshold only splits clusters: what stays together was together before. */
  lemma HigherThresholdRefines(ids: seq<Id>, samples: map<Id, Bytes>, low: real, high: real, x: Id, y: Id)
    requires IsBucket(ids, samples) && low <= high
    requires Connected(Edges(ids, samples, high), x, y)
    ensures Connected(Edges(ids, samples, low), x, y)
  {
    forall e | e in Edges(ids, samples, high)
      ensures e in Edges(ids, samples, low)
    {
      var p: nat, q: nat :| p < |ids| && q < |ids| && Edge(ids, samples, high, p, q) && e == (ids[p], ids[q]);
      assert Edge(ids, samples, low, p, q);
    }
    Monotone(Edges(ids, samples, high), Edges(ids, samples, low), x, y);
  }

  // ------------------------------------------------------------------
  // One possible answer
  // ------------------------------------------------------------------

  ghost predicate AllDistinct(ids: seq<Id>) {
    forall i, j :: 0 <= i < j < |ids| ==> ids[i] != ids[j]
  }

  lemma NotBothWays(ids: seq<Id>, c: seq<Id>, d: seq<Id>)
    requires AllDistinct(ids) && c != [] && d != []
    ensures !(Precedes(ids, c, d) && Precedes(ids, d, c))
  {
  }

  lemma FirstOf(cs: seq<seq<Id>>, ids: seq<Id>, d: seq<Id>)
    requires cs != [] && InOrder(cs, ids) && d in cs
    ensures d != [] && (d == cs[0] || Precedes(ids, cs[0], d))
  {
    var i :| 0 <= i < |cs| && cs[i] == d;
  }

  lemma TailMembers(cs: seq<seq<Id>>, ids: seq<Id>, d: seq<Id>)
    requires cs != [] && InOrder(cs, ids) && AllDistinct(ids)
    ensures d in cs[1..] <==> d in cs && d != cs[0]
  {
    if d in cs[1..] {
      var i :| 0 <= i < |cs[1..]| && cs[1..][i] == d;
      NotBothWays(ids, cs[0], cs[i + 1]);
      NotBothWays(ids, cs[0], cs[0]);
    }
  }

  lemma {:induction false} OneOrder(cs: seq<seq<Id>>, other: seq<seq<Id>>, ids: seq<Id>)
    requires AllDistinct(ids) && InOrder(cs, ids) && InOrder(other, ids)
    requires forall d :: d in cs <==> d in other
    ensures cs == other
    decreases |cs|
  {
    hide Precedes, AllDistinct;
    assert other != [] ==> other[0] in cs;
    if cs != [] {
      assert cs[0] in other;
      assert other[0] in cs;
      FirstOf(cs, ids, other[0]);
      FirstOf(other, ids, cs[0]);
      NotBothWays(ids, cs[0], other[0]);
      forall d
        ensures d in cs[1..] <==> d in other[1..]
      {
        TailMembers(cs, ids, d);
        TailMembers(other, ids, d);
      }
      OneOrder(cs[1..], other[1..], ids);
      assert cs == [cs[0]] + cs[1..] && other == [other[0]] + other[1..];
    }
  }

  /** The components of a graph, in this order, are one list. */
  lemma ClustersUnique(cs: seq<seq<Id>>, other: seq<seq<Id>>, ids: seq<Id>, edges: set<(Id, Id)>)
    requires AllDistinct(ids)
    requires AreComponents(cs, ids, edges) && InOrder(cs, ids)
    requires AreComponents(other, ids, edges) && InOrder(other, ids)
    ensures cs == other
  {
    forall d
      ensures d in cs <==> d in other
    {
      if d in cs {
        Listed(cs, other, ids, edges, d);
      }
      if d in other {
        Listed(other, cs, ids, edges, d);
      }
    }
    OneOrder(cs, other, ids);
  }

  lemma Listed(cs: seq<seq<Id>>, other: seq<seq<Id>>, ids: seq<Id>, edges: set<(Id, Id)>, d: seq<Id>)
    requires AreComponents(cs, ids, edges) && AreComponents(other, ids, edges) && d in cs
    ensures d in other
  {
    var x := d[0];
    ComponentMembers(ids, edges, x, x);
    assert x in d;
  }

  /** Every ID lies in exactly one cluster. */
  lemma ClustersPartition(cs: seq<seq<Id>>, ids: seq<Id>, edges: set<(Id, Id)>, x: Id)
    requires AreComponents(cs, ids, edges) && x in ids
    ensures exists i :: 0 <= i < |cs| && x in cs[i] && forall j :: 0 <= j < |cs| && x in cs[j] ==> j == i
  {
    ComponentMembers(ids, edges, x, x);
    Reflexive(edges, x);
    var home := Component(ids, edges, x);
    var i :| 0 <= i < |cs| && cs[i] == home;
    forall j | 0 <= j < |cs| && x in cs[j]
      ensures j == i
    {
      assert cs[j] in cs && cs[j] == home;
    }
  }

  /** Two IDs share a cluster exactly when they are connected. */
  lemma SameCluster(cs: seq<seq<Id>>, ids: seq<Id>, edges: set<(Id, Id)>, x: Id, y: Id)
    requires AreComponents(cs, ids, edges) && x in ids && y in ids
    ensures (exists c :: c in cs && x in c && y in c) <==> Connected(edges, x, y)
  {
    ComponentMembers(ids, edges, x, x);
    ComponentMembers(ids, edges, x, y);
    Reflexive(edges, x);
    var home := Component(ids, edges, x);
    if Connected(edges, x, y) {
      Symmetric(edges, x, y);
      assert home in cs && x in home && y in home;
    }
    if c :| c in cs && x in c && y in c {
      assert c == home;
      Symmetric(edges, y, x);
    }
  }

  lemma {:induction false} ComponentMembers(ids: seq<Id>, edges: set<(Id, Id)>, x: Id, y: Id)
    ensures y in Component(ids, edges, x) <==> y in ids && Connected(edges, y, x)
  {
    if ids != [] {
      ComponentMembers(ids[..|ids| - 1], edges, x, y);
      assert y in ids <==> y in ids[..|ids| - 1] || y == ids[|ids| - 1];
    }
  }
}
