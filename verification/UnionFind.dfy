/** The disjoint-set forest with path halving. */
module UnionFind {
  import opened Connectivity

  /** The parent of `x` is in the table and, unless `x` is a root, ranked below it. */
  ghost predicate Climbs<T(!new)>(parent: map<T, T>, rank: map<T, nat>, x: T) {
    && x in parent && x in rank
    && parent[x] in parent && parent[x] in rank
    && (parent[x] != x ==> rank[parent[x]] < rank[x])
  }

  ghost predicate Forest<T(!new)>(parent: map<T, T>, rank: map<T, nat>) {
    forall x {:trigger Climbs(parent, rank, x)} :: x in parent ==> Climbs(parent, rank, x)
  }

  ghost function Root<T(!new)>(parent: map<T, T>, rank: map<T, nat>, x: T): (r: T)
    requires Forest(parent, rank) && x in parent
    ensures Climbs(parent, rank, x) && Climbs(parent, rank, r)
    ensures parent[r] == r && rank[r] <= rank[x]
    decreases if Climbs(parent, rank, x) then rank[x] else 0
  {
    assert Climbs(parent, rank, x);
    if parent[x] == x then x
    else
      assert Climbs(parent, rank, parent[x]);
      Root(parent, rank, parent[x])
  }

  lemma HalvingKeepsForest<T(!new)>(parent: map<T, T>, rank: map<T, nat>, x: T)
    requires Forest(parent, rank) && x in parent
    ensures Climbs(parent, rank, x) && Climbs(parent, rank, parent[x])
    ensures Forest(parent[x := parent[parent[x]]], rank)
  {
    assert Climbs(parent, rank, x) && Climbs(parent, rank, parent[x]);
    var parent' := parent[x := parent[parent[x]]];
    forall y | y in parent'
      ensures Climbs(parent', rank, y)
    {
      assert Climbs(parent, rank, y);
      assert Climbs(parent, rank, parent[parent[x]]);
    }
  }

  /** Pointing a vertex at its grandparent keeps every root. */
  lemma {:induction false} HalvingKeepsRoots<T(!new)>(parent: map<T, T>, rank: map<T, nat>, x: T, y: T)
    requires Forest(parent, rank) && x in parent && y in parent
    requires Climbs(parent, rank, x) && Climbs(parent, rank, parent[x])
    requires Forest(parent[x := parent[parent[x]]], rank)
    ensures Root(parent[x := parent[parent[x]]], rank, y) == Root(parent, rank, y)
    decreases if Climbs(parent, rank, y) then rank[y] else 0
  {
    assert Climbs(parent, rank, y);
    var g := parent[parent[x]];
    if y == x {
      if g != x {
        assert Climbs(parent, rank, g);
        HalvingKeepsRoots(parent, rank, x, g);
        assert Root(parent, rank, parent[x]) == Root(parent, rank, g);
      }
    } else if parent[y] != y {
      assert Climbs(parent, rank, parent[y]);
      HalvingKeepsRoots(parent, rank, x, parent[y]);
    }
  }

  /** Ranks after the tree of root `ra` is hung below root `rb`. */
  ghost function Reranked<T(!new)>(parent: map<T, T>, rank: map<T, nat>, ra: T, rb: T): map<T, nat>
    requires Forest(parent, rank) && rb in parent
  {
    assert Climbs(parent, rank, rb);
    map x | x in parent :: RankBelow(parent, rank, ra, rb, x)
  }

  ghost function RankBelow<T(!new)>(parent: map<T, T>, rank: map<T, nat>, ra: T, rb: T, x: T): nat
    requires Forest(parent, rank) && x in parent && Climbs(parent, rank, rb)
  {
    if Root(parent, rank, x) == ra then rank[x] + rank[rb] + 1 else rank[x]
  }

  lemma HangingKeepsForest<T(!new)>(parent: map<T, T>, rank: map<T, nat>, ra: T, rb: T)
    requires Forest(parent, rank) && ra in parent && rb in parent
    requires parent[ra] == ra && parent[rb] == rb && ra != rb
    ensures Forest(parent[ra := rb], Reranked(parent, rank, ra, rb))
  {
    assert Climbs(parent, rank, rb) && Climbs(parent, rank, ra);
    var parent', rank' := parent[ra := rb], Reranked(parent, rank, ra, rb);
    forall x | x in parent'
      ensures Climbs(parent', rank', x)
    {
      assert Climbs(parent, rank, x);
      assert Climbs(parent, rank, parent[x]);
      assert rank'[x] == RankBelow(parent, rank, ra, rb, x);
      assert rank'[parent'[x]] == RankBelow(parent, rank, ra, rb, parent'[x]);
    }
  }

  lemma {:induction false} HangingMovesRoots<T(!new)>(parent: map<T, T>, rank: map<T, nat>, ra: T, rb: T, x: T)
    requires Forest(parent, rank) && ra in parent && rb in parent && x in parent
    requires parent[ra] == ra && parent[rb] == rb && ra != rb
    requires Forest(parent[ra := rb], Reranked(parent, rank, ra, rb))
    ensures Root(parent[ra := rb], Reranked(parent, rank, ra, rb), x) ==
      if Root(parent, rank, x) == ra then rb else Root(parent, rank, x)
    decreases if Climbs(parent, rank, x) then rank[x] else 0
  {
    assert Climbs(parent, rank, x);
    if parent[x] != x {
      assert Climbs(parent, rank, parent[x]);
      HangingMovesRoots(parent, rank, ra, rb, parent[x]);
    } else if x == ra {
      assert Root(parent[ra := rb], Reranked(parent, rank, ra, rb), rb) == rb;
    }
  }

  /** Every element's root. */
  ghost function RootMap<T(!new)>(parent: map<T, T>, rank: map<T, nat>): map<T, T>
    requires Forest(parent, rank)
  {
    map x | x in parent :: Root(parent, rank, x)
  }

  lemma RootMapIs<T(!new)>(parent: map<T, T>, rank: map<T, nat>, m: map<T, T>)
    requires Forest(parent, rank) && m.Keys == parent.Keys
    requires forall x <- parent :: Root(parent, rank, x) == m[x]
    ensures RootMap(parent, rank) == m
  {
  }

  lemma HalvingKeepsRootMap<T(!new)>(parent: map<T, T>, rank: map<T, nat>, x: T)
    requires Forest(parent, rank) && x in parent
    ensures Climbs(parent, rank, x) && Climbs(parent, rank, parent[x])
    ensures Forest(parent[x := parent[parent[x]]], rank)
    ensures RootMap(parent[x := parent[parent[x]]], rank) == RootMap(parent, rank)
  {
    HalvingKeepsForest(parent, rank, x);
    var parent', roots := parent[x := parent[parent[x]]], RootMap(parent, rank);
    forall y | y in parent'
      ensures Root(parent', rank, y) == roots[y]
    {
      HalvingKeepsRoots(parent, rank, x, y);
    }
    RootMapIs(parent', rank, roots);
  }

  lemma HangingMerges<T(!new)>(parent: map<T, T>, rank: map<T, nat>, a: T, b: T, ra: T, rb: T)
    requires Forest(parent, rank) && a in parent && b in parent
    requires ra == RootMap(parent, rank)[a] && rb == RootMap(parent, rank)[b] && ra != rb
    ensures Forest(parent[ra := rb], Reranked(parent, rank, ra, rb))
    ensures RootMap(parent[ra := rb], Reranked(parent, rank, ra, rb)) == Merge(RootMap(parent, rank), a, b)
  {
    var parent', rank', merged := parent[ra := rb], Reranked(parent, rank, ra, rb), Merge(RootMap(parent, rank), a, b);
    HangingKeepsForest(parent, rank, ra, rb);
    forall x | x in parent'
      ensures Root(parent', rank', x) == merged[x]
    {
      HangingMovesRoots(parent, rank, ra, rb, x);
    }
    RootMapIs(parent', rank', merged);
  }

  class UF<T(==, !new)> {
    var parent: map<T, T>
    ghost var rank: map<T, nat>

    ghost predicate Valid()
      reads this
    {
      Forest(parent, rank)
    }

    ghost function Roots(): map<T, T>
      reads this
      requires Valid()
    {
      RootMap(parent, rank)
    }

    constructor (items: seq<T>)
      ensures Valid()
      ensures Roots() == map x | x in items :: x
      ensures forall x <- items :: x in parent
    {
      parent := map x | x in items :: x;
      rank := map x | x in items :: 0;
    }

    /** One halving step: `x` is pointed at its grandparent. */
    method Halve(x: T)
      requires Valid() && x in parent && Climbs(parent, rank, x)
      modifies this`parent
      ensures Valid() && Roots() == old(Roots()) && parent.Keys == old(parent.Keys)
      ensures x in parent && parent[x] == old(parent[parent[x]])
    {
      HalvingKeepsRootMap(parent, rank, x);
      parent := parent[x := parent[parent[x]]];
    }

    lemma RootOfParent(x: T)
      requires Valid() && x in parent
      ensures Climbs(parent, rank, x) && Roots()[x] == Roots()[parent[x]]
    {
      assert Climbs(parent, rank, x);
    }

    /** Terminates with the root of `x`, halving the path on the way; no root changes. */
    method Find(x: T) returns (r: T)
      requires Valid() && x in parent
      modifies this`parent
      ensures Valid() && Roots() == old(Roots()) && parent.Keys == old(parent.Keys)
      ensures r == Roots()[x]
    {
      r := x;
      while parent[r] != r
        invariant Valid() && Roots() == old(Roots()) && parent.Keys == old(parent.Keys)
        invariant r in parent && Roots()[r] == Roots()[x]
        decreases if Climbs(parent, rank, r) then rank[r] else 0
      {
        assert Climbs(parent, rank, r) && Climbs(parent, rank, parent[r]);
        assert Climbs(parent, rank, parent[parent[r]]);
        Halve(r);
        RootOfParent(r);
        r := parent[r];
      }
    }

    /** Gives the class of `a` the root of `b`, and touches no other class. */
    method Union(a: T, b: T)
      requires Valid() && a in parent && b in parent
      modifies this
      ensures Valid() && Roots() == Merge(old(Roots()), a, b)
      ensures parent.Keys == old(parent.Keys)
    {
      var ra := Find(a);
      var rb := Find(b);
      if ra != rb {
        HangingMerges(parent, rank, a, b, ra, rb);
        parent, rank := parent[ra := rb], Reranked(parent, rank, ra, rb);
      }
    }
  }
}
