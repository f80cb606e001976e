/** Undirected reachability over a set of edges, the yardstick for union-find clustering. */
module Connectivity {

  predicate Adjacent<T(==)>(edges: set<(T, T)>, x: T, y: T) {
    (x, y) in edges || (y, x) in edges
  }

  /** `p` lists the vertices after `x` on a walk to `y`. */
  predicate IsPath<T(==)>(edges: set<(T, T)>, p: seq<T>, x: T, y: T) {
    if p == [] then x == y else Adjacent(edges, x, p[0]) && IsPath(edges, p[1..], p[0], y)
  }

  ghost predicate Connected<T(!new)>(edges: set<(T, T)>, x: T, y: T) {
    exists p :: IsPath(edges, p, x, y)
  }

  lemma {:induction false} PathAppend<T>(edges: set<(T, T)>, p: seq<T>, q: seq<T>, x: T, y: T, z: T)
    requires IsPath(edges, p, x, y) && IsPath(edges, q, y, z)
    ensures IsPath(edges, p + q, x, z)
    decreases |p|
  {
    if p == [] {
      assert p + q == q;
    } else {
      PathAppend(edges, p[1..], q, p[0], y, z);
      assert (p + q)[1..] == p[1..] + q;
    }
  }

  lemma Reflexive<T(!new)>(edges: set<(T, T)>, x: T)
    ensures Connected(edges, x, x)
  {
    assert IsPath(edges, [], x, x);
  }

  lemma Transitive<T(!new)>(edges: set<(T, T)>, x: T, y: T, z: T)
    requires Connected(edges, x, y) && Connected(edges, y, z)
    ensures Connected(edges, x, z)
  {
    var p :| IsPath(edges, p, x, y);
    var q :| IsPath(edges, q, y, z);
    PathAppend(edges, p, q, x, y, z);
  }

  lemma OneStep<T(!new)>(edges: set<(T, T)>, x: T, y: T)
    requires Adjacent(edges, x, y)
    ensures Connected(edges, x, y)
  {
    assert IsPath(edges, [], y, y) && [y][1..] == [];
    assert IsPath(edges, [y], x, y);
  }

  lemma {:induction false} PathReverses<T(!new)>(edges: set<(T, T)>, p: seq<T>, x: T, y: T)
    requires IsPath(edges, p, x, y)
    ensures Connected(edges, y, x)
    decreases |p|
  {
    if p == [] {
      Reflexive(edges, x);
    } else {
      PathReverses(edges, p[1..], p[0], y);
      OneStep(edges, p[0], x);
      Transitive(edges, y, p[0], x);
    }
  }

  lemma Symmetric<T(!new)>(edges: set<(T, T)>, x: T, y: T)
    requires Connected(edges, x, y)
    ensures Connected(edges, y, x)
  {
    var p :| IsPath(edges, p, x, y);
    PathReverses(edges, p, x, y);
  }

  /** More edges connect more. */
  lemma {:induction false} PathMonotone<T>(few: set<(T, T)>, many: set<(T, T)>, p: seq<T>, x: T, y: T)
    requires few <= many && IsPath(few, p, x, y)
    ensures IsPath(many, p, x, y)
    decreases |p|
  {
    if p != [] {
      PathMonotone(few, many, p[1..], p[0], y);
    }
  }

  lemma Monotone<T(!new)>(few: set<(T, T)>, many: set<(T, T)>, x: T, y: T)
    requires few <= many && Connected(few, x, y)
    ensures Connected(many, x, y)
  {
    var p :| IsPath(few, p, x, y);
    PathMonotone(few, many, p, x, y);
  }

  /** Both ends of every edge lie in `rep` and have the same value there. */
  predicate Respects<T(==)>(rep: map<T, T>, edges: set<(T, T)>) {
    forall e <- edges :: e.0 in rep && e.1 in rep && rep[e.0] == rep[e.1]
  }

  /** A labelling constant along edges is constant along walks. */
  lemma {:induction false} PathRespects<T>(rep: map<T, T>, edges: set<(T, T)>, p: seq<T>, x: T, y: T)
    requires Respects(rep, edges) && x in rep && IsPath(edges, p, x, y)
    ensures y in rep && rep[x] == rep[y]
    decreases |p|
  {
    if p != [] {
      assert (x, p[0]) in edges || (p[0], x) in edges;
      PathRespects(rep, edges, p[1..], p[0], y);
    }
  }

  /** `rep` labels the components of `edges`: constant along edges, and reachable from each vertex. */
  ghost predicate Labels<T(!new)>(rep: map<T, T>, edges: set<(T, T)>) {
    Respects(rep, edges) && forall x <- rep :: Connected(edges, x, rep[x])
  }

  /** Equal labels mean exactly connected. */
  lemma LabelsExact<T(!new)>(rep: map<T, T>, edges: set<(T, T)>, x: T, y: T)
    requires Labels(rep, edges) && x in rep && y in rep
    ensures rep[x] == rep[y] <==> Connected(edges, x, y)
  {
    if rep[x] == rep[y] {
      Symmetric(edges, y, rep[y]);
      Transitive(edges, x, rep[x], y);
    }
    if Connected(edges, x, y) {
      var p :| IsPath(edges, p, x, y);
      PathRespects(rep, edges, p, x, y);
    }
  }

  /** The labelling after the class of `a` has been given the label of `b`. */
  function Merge<T(==)>(rep: map<T, T>, a: T, b: T): map<T, T>
    requires a in rep && b in rep
  {
    map x | x in rep :: if rep[x] == rep[a] then rep[b] else rep[x]
  }

  lemma MergeLabels<T(!new)>(rep: map<T, T>, edges: set<(T, T)>, a: T, b: T)
    requires Labels(rep, edges) && a in rep && b in rep
    ensures Labels(Merge(rep, a, b), edges + {(a, b)})
  {
    var rep', more := Merge(rep, a, b), edges + {(a, b)};
    forall x | x in rep'
      ensures Connected(more, x, rep'[x])
    {
      Monotone(edges, more, x, rep[x]);
      if rep[x] == rep[a] {
        Monotone(edges, more, a, rep[a]);
        Symmetric(more, a, rep[a]);
        Transitive(more, x, rep[x], a);
        OneStep(more, a, b);
        Transitive(more, x, a, b);
        Monotone(edges, more, b, rep[b]);
        Transitive(more, x, b, rep[b]);
      }
    }
  }
}
