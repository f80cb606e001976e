/** Quantile resampling: sorting, bins that are never empty, and what an affine change of units does. */
module Quantile {
  import opened Basics
  import opened RealAlgebra
  import opened Correlation

  /** One entry of a series: absent, not a number, or a value. */
  datatype Reading = Absent | NotANumber | Number(value: real)

  /** The values that survive the clean-up, in order. */
  function Cleaned(values: seq<Reading>): seq<real> {
    if values == [] then []
    else (if values[0].Number? then [values[0].value] else []) + Cleaned(values[1..])
  }

  lemma {:induction false} CleanedAppend(a: seq<Reading>, b: seq<Reading>)
    ensures Cleaned(a + b) == Cleaned(a) + Cleaned(b)
  {
    if a == [] {
      assert a + b == b;
    } else {
      CleanedAppend(a[1..], b);
      assert (a + b)[0] == a[0] && (a + b)[1..] == a[1..] + b;
      var head := if a[0].Number? then [a[0].value] else [];
      Assoc(head, Cleaned(a[1..]), Cleaned(b));
    }
  }

  /** `at` lists the positions of the numbers among the readings, in order, all of them. */
  ghost predicate NumbersAt(values: seq<Reading>, at: seq<nat>) {
    && (forall i :: 0 <= i < |at| ==> at[i] < |values| && values[at[i]].Number?)
    && (forall i, j :: 0 <= i < j < |at| ==> at[i] < at[j])
    && (forall k :: 0 <= k < |values| && values[k].Number? ==> k in at)
  }

  /** The clean-up keeps the numbers, all of them and in order, and nothing else. */
  lemma {:induction false} CleanedExact(values: seq<Reading>) returns (at: seq<nat>)
    ensures NumbersAt(values, at) && |at| == |Cleaned(values)|
    ensures forall i :: 0 <= i < |at| ==> Cleaned(values)[i] == values[at[i]].value
    decreases |values|
  {
    if values == [] {
      at := [];
    } else {
      var n := |values| - 1;
      at := CleanedExact(values[..n]);
      assert values == values[..n] + [values[n]];
      CleanedAppend(values[..n], [values[n]]);
      assert [values[n]][1..] == [];
      if values[n].Number? {
        assert Cleaned([values[n]]) == [values[n].value];
        assert forall k :: 0 <= k < n && values[k].Number? ==> values[..n][k].Number? && k in at;
        at := at + [n];
      } else {
        assert Cleaned([values[n]]) == [];
        assert forall k :: 0 <= k < n && values[k].Number? ==> values[..n][k].Number?;
      }
    }
  }

  // ------------------------------------------------------------------
  // Sorting
  // ------------------------------------------------------------------

  ghost predicate Ascending(s: seq<real>) {
    forall i, j :: 0 <= i < j < |s| ==> s[i] <= s[j]
  }

  function Insert(x: real, s: seq<real>): seq<real> {
    if s == [] || x <= s[0] then [x] + s else [s[0]] + Insert(x, s[1..])
  }

  /** `list.sort`; by `SortedUnique` the algorithm does not matter. */
  function Sort(s: seq<real>): seq<real> {
    if s == [] then [] else Insert(s[0], Sort(s[1..]))
  }

  lemma MultisetHead(s: seq<real>)
    requires s != []
    ensures multiset(s) == multiset{s[0]} + multiset(s[1..])
  {
    assert s == [s[0]] + s[1..];
  }

  predicate AtLeast(s: seq<real>, lo: real) {
    forall i :: 0 <= i < |s| ==> lo <= s[i]
  }

  lemma AscendingStep(s: seq<real>)
    requires s != []
    ensures Ascending(s) <==> AtLeast(s[1..], s[0]) && Ascending(s[1..])
  {
    if AtLeast(s[1..], s[0]) && Ascending(s[1..]) {
      forall i, j | 0 <= i < j < |s|
        ensures s[i] <= s[j]
      {
        assert s[j] == s[1..][j - 1];
        if i > 0 {
          assert s[i] == s[1..][i - 1];
        }
      }
    }
  }

  lemma AtLeastMembers(s: seq<real>, lo: real)
    ensures AtLeast(s, lo) <==> forall v <- multiset(s) :: lo <= v
  {
    if forall v <- multiset(s) :: lo <= v {
      forall i | 0 <= i < |s|
        ensures lo <= s[i]
      {
        assert s[i] in multiset(s);
      }
    }
  }

  lemma AtLeastStep(s: seq<real>, lo: real)
    requires s != []
    ensures AtLeast(s, lo) <==> lo <= s[0] && AtLeast(s[1..], lo)
  {
    assert s == [s[0]] + s[1..];
    assert forall i :: 0 < i < |s| ==> s[i] == s[1..][i - 1];
    assert forall i :: 0 <= i < |s[1..]| ==> s[1..][i] == s[i + 1];
  }

  lemma {:induction false} InsertAtLeast(x: real, s: seq<real>, lo: real)
    ensures AtLeast(Insert(x, s), lo) <==> lo <= x && AtLeast(s, lo)
  {
    hide AtLeast;
    AtLeastStep(Insert(x, s), lo);
    if s == [] || x <= s[0] {
      assert ([x] + s)[1..] == s;
      if s == [] {
        NothingBelow(lo);
      }
    } else {
      AtLeastStep(s, lo);
      InsertAtLeast(x, s[1..], lo);
      assert Insert(x, s)[1..] == Insert(x, s[1..]);
    }
  }

  lemma NothingBelow(lo: real)
    ensures AtLeast([], lo)
  {
  }

  lemma AtLeastLess(s: seq<real>, lo: real, less: real)
    requires AtLeast(s, lo) && less <= lo
    ensures AtLeast(s, less)
  {
  }

  lemma {:induction false} InsertAscends(x: real, s: seq<real>)
    requires Ascending(s)
    ensures Ascending(Insert(x, s))
  {
    if s != [] {
      hide Ascending, AtLeast;
      AscendingStep(s);
      AscendingStep(Insert(x, s));
      if x <= s[0] {
        assert ([x] + s)[1..] == s;
        AtLeastLess(s[1..], s[0], x);
        AtLeastStep(s, x);
      } else {
        InsertAscends(x, s[1..]);
        InsertAtLeast(x, s[1..], s[0]);
        assert Insert(x, s)[1..] == Insert(x, s[1..]);
      }
    }
  }

  lemma {:induction false} InsertSorted(x: real, s: seq<real>)
    requires Ascending(s)
    ensures Ascending(Insert(x, s)) && multiset(Insert(x, s)) == multiset{x} + multiset(s)
  {
    InsertAscends(x, s);
    if s != [] && x > s[0] {
      AscendingStep(s);
      hide Ascending, AtLeast;
      InsertSorted(x, s[1..]);
      MultisetHead(s);
      MultisetHead(Insert(x, s));
      assert Insert(x, s)[1..] == Insert(x, s[1..]);
    }
  }

  lemma {:induction false} SortSorts(s: seq<real>)
    ensures Ascending(Sort(s)) && multiset(Sort(s)) == multiset(s) && |Sort(s)| == |s|
  {
    if s != [] {
      SortSorts(s[1..]);
      InsertSorted(s[0], Sort(s[1..]));
      assert s == [s[0]] + s[1..];
      assert |multiset(Sort(s))| == |multiset(s)|;
    }
  }

  lemma LeastFirst(a: seq<real>, v: real)
    requires a != [] && Ascending(a) && v in multiset(a)
    ensures a[0] <= v
  {
    AscendingStep(a);
    AtLeastMembers(a[1..], a[0]);
    MultisetHead(a);
  }

  /** There is one ascending arrangement of a multiset. */
  lemma {:induction false} SortedUnique(a: seq<real>, b: seq<real>)
    requires Ascending(a) && Ascending(b) && multiset(a) == multiset(b)
    ensures a == b
    decreases |a|
  {
    hide Ascending;
    if a == [] || b == [] {
      assert |multiset(a)| == |a| && |multiset(b)| == |b|;
    } else {
      MultisetHead(a);
      MultisetHead(b);
      assert a[0] in multiset(a) && b[0] in multiset(b);
      LeastFirst(a, b[0]);
      LeastFirst(b, a[0]);
      TailsAgree(multiset(a[1..]), multiset(b[1..]), a[0]);
      AscendingStep(a);
      AscendingStep(b);
      SortedUnique(a[1..], b[1..]);
      assert a == [a[0]] + a[1..] && b == [b[0]] + b[1..];
    }
  }

  lemma TailsAgree(m: multiset<real>, n: multiset<real>, v: real)
    requires multiset{v} + m == multiset{v} + n
    ensures m == n
  {
    assert m == multiset{v} + m - multiset{v};
    assert n == multiset{v} + n - multiset{v};
  }

  // ------------------------------------------------------------------
  // Bins
  // ------------------------------------------------------------------

  function Cut(i: nat, len: nat, n: nat): nat
    requires n > 0
  {
    i * len / n
  }

  lemma MulMonotone(i: nat, j: nat, len: nat)
    requires i <= j
    ensures i * len <= j * len
    ensures i < j && len > 0 ==> i * len < j * len
  {
    assert j * len == i * len + (j - i) * len;
  }

  lemma DivBounds(x: nat, n: nat)
    requires n > 0
    ensures (x / n) * n <= x < (x / n) * n + n
  {
  }

  /** Multiples of `n` compare like their multipliers. */
  lemma CompareMultiples(p: nat, q: nat, n: nat)
    requires n > 0 && p * n < q * n + n
    ensures p <= q
  {
    if q + 1 <= p {
      MulMonotone(q + 1, p, n);
    }
  }

  lemma DivMonotone(x: nat, y: nat, n: nat)
    requires x <= y && n > 0
    ensures x / n <= y / n
  {
    DivBounds(x, n);
    DivBounds(y, n);
    CompareMultiples(x / n, y / n, n);
  }

  lemma DivExact(len: nat, n: nat)
    requires n > 0
    ensures n * len / n == len
  {
    var x := n * len;
    DivBounds(x, n);
    CompareMultiples(x / n, len, n);
    CompareMultiples(len, x / n, n);
  }

  lemma DivBelow(x: nat, len: nat, n: nat)
    requires n > 0 && x < n * len
    ensures x / n < len
  {
    DivBounds(x, n);
    if len <= x / n {
      MulMonotone(len, x / n, n);
    }
  }

  /** The cuts run from 0 to the length, never backwards, and every bin starts inside. */
  lemma CutBounds(i: nat, len: nat, n: nat)
    requires i < n && len > 0
    ensures Cut(i, len, n) <= Cut(i + 1, len, n) <= len
    ensures Cut(i, len, n) < len
  {
    MulMonotone(i, i + 1, len);
    MulMonotone(i + 1, n, len);
    MulMonotone(i, n, len);
    DivMonotone(i * len, (i + 1) * len, n);
    DivMonotone((i + 1) * len, n * len, n);
    DivExact(len, n);
    DivBelow(i * len, len, n);
  }

  /** With at least one value per bin no two cuts meet. */
  lemma CutsApart(i: nat, len: nat, n: nat)
    requires n > 0 && n <= len
    ensures Cut(i, len, n) < Cut(i + 1, len, n)
  {
    var x, y := i * len, (i + 1) * len;
    assert y == x + len;
    DivBounds(x, n);
    DivBounds(y, n);
    CompareMultiples(x / n + 1, y / n, n);
  }

  /** Where bin `i` ends: a bin two cuts would leave empty takes one value. */
  function BinEnd(i: nat, len: nat, n: nat): nat
    requires n > 0
  {
    if Cut(i + 1, len, n) == Cut(i, len, n) then Cut(i, len, n) + 1 else Cut(i + 1, len, n)
  }

  /** The slice behind quantile `i`; never empty. */
  function Bin(s: seq<real>, n: nat, i: nat): (r: seq<real>)
    requires s != [] && i < n
    ensures r != []
  {
    CutBounds(i, |s|, n);
    s[Cut(i, |s|, n)..BinEnd(i, |s|, n)]
  }

  /** Bins `0 .. k`, each by its mean. */
  function BinMeans(s: seq<real>, n: nat, k: nat): (r: seq<real>)
    requires s != [] && k <= n
    ensures |r| == k
  {
    if k == 0 then [] else BinMeans(s, n, k - 1) + [Mean(Bin(s, n, k - 1))]
  }

  /** What resampling means for the cleaned values `s`. */
  function Resampled(s: seq<real>, bins: int): seq<real> {
    if s == [] || bins <= 0 then []
    else
      SortSorts(s);
      BinMeans(Sort(s), bins, bins)
  }

  /** `quantile_resample`. */
  method QuantileResample(values: seq<Reading>, bins: int) returns (out: seq<real>)
    ensures out == Resampled(Cleaned(values), bins)
  {
    hide Sort, Mean;
    var cleaned := [];
    for k := 0 to |values|
      invariant cleaned == Cleaned(values[..k])
    {
      assert values[..k + 1] == values[..k] + [values[k]];
      CleanedAppend(values[..k], [values[k]]);
      if values[k].Number? {
        cleaned := cleaned + [values[k].value];
      }
    }
    assert values[..|values|] == values;
    if cleaned == [] {
      return [];
    }
    SortSorts(cleaned);
    cleaned := Sort(cleaned);
    out := [];
    var i := 0;
    while i < bins
      invariant 0 <= i && (bins <= 0 ==> i == 0) && (bins > 0 ==> i <= bins)
      invariant bins > 0 ==> out == BinMeans(cleaned, bins, i)
      invariant bins <= 0 ==> out == []
    {
      CutBounds(i, |cleaned|, bins);
      var lo := i * |cleaned| / bins;
      var hi := (i + 1) * |cleaned| / bins;
      if hi == lo {
        hi := lo + 1;
      }
      var chunk := cleaned[lo..hi];
      assert chunk == Bin(cleaned, bins, i);
      out := out + [Mean(chunk)];
      i := i + 1;
    }
  }

  lemma {:induction false} BinMeansAt(s: seq<real>, n: nat, k: nat, i: nat)
    requires s != [] && i < k <= n
    ensures BinMeans(s, n, k)[i] == Mean(Bin(s, n, i))
  {
    hide Mean, Bin;
    if i < k - 1 {
      BinMeansAt(s, n, k - 1, i);
    }
  }

  // ------------------------------------------------------------------
  // Which ranks a bin holds
  // ------------------------------------------------------------------

  lemma DivAtMost(x: nat, n: nat, k: nat)
    requires n > 0
    ensures x / n <= k <==> x < (k + 1) * n
  {
    DivBounds(x, n);
    assert (k + 1) * n == k * n + n;
    if x / n <= k {
      MulMonotone(x / n, k, n);
    }
    if x < (k + 1) * n {
      CompareMultiples(x / n, k, n);
    }
  }

  lemma CutAtMost(i: nat, len: nat, n: nat, k: nat)
    requires n > 0
    ensures Cut(i, len, n) <= k <==> i * len < (k + 1) * n
  {
    DivAtMost(i * len, n, k);
  }

  /** Between two cuts stand the ranks that reach past the first share and not past the second. */
  lemma CutRanks(i: nat, len: nat, n: nat, k: nat)
    requires n > 0
    ensures Cut(i, len, n) <= k < Cut(i + 1, len, n) <==> i * len < (k + 1) * n <= (i + 1) * len
  {
    CutAtMost(i, len, n, k);
    CutAtMost(i + 1, len, n, k);
    hide Cut;
  }

  /** Rank `k` of `len` values belongs to bin `i` of `n`. */
  predicate InBin(i: nat, len: nat, n: nat, k: nat) {
    i * len < (k + 1) * n <= (i + 1) * len
  }

  /** The ranks `lo .. hi` and no others belong to bin `i` of `n`. */
  ghost predicate BinIs(i: nat, len: nat, n: nat, lo: nat, hi: nat) {
    && lo <= hi <= len
    && forall k: nat :: k < len ==> (lo <= k < hi <==> InBin(i, len, n, k))
  }

  /** With no more bins than values, every bin is a stretch of at least one rank. */
  lemma BinExists(i: nat, len: nat, n: nat) returns (lo: nat, hi: nat)
    requires 0 < n <= len && i < n
    ensures lo == Cut(i, len, n) && hi == BinEnd(i, len, n)
    ensures lo < hi && BinIs(i, len, n, lo, hi)
  {
    CutsApart(i, len, n);
    CutBounds(i, len, n);
    lo, hi := Cut(i, len, n), Cut(i + 1, len, n);
    forall k: nat | k < len
      ensures lo <= k < hi <==> InBin(i, len, n, k)
    {
      CutRanks(i, len, n, k);
    }
  }

  lemma BinUnique(i: nat, len: nat, n: nat, lo: nat, hi: nat, lo': nat, hi': nat)
    requires BinIs(i, len, n, lo, hi) && BinIs(i, len, n, lo', hi') && lo' < hi'
    ensures lo == lo' && hi == hi'
  {
    hide InBin;
    assert InBin(i, len, n, lo') && InBin(i, len, n, hi' - 1);
    assert InBin(i, len, n, lo) && InBin(i, len, n, hi - 1);
  }

  /**
   With no more bins than values, bin `i` holds the ranks `k` with
   `i * len < (k + 1) * n <= (i + 1) * len`, and the result is their mean.
   */
  lemma QuantileRanks(s: seq<real>, n: nat, i: nat, lo: nat, hi: nat)
    requires 0 < n <= |s| && i < n && BinIs(i, |s|, n, lo, hi)
    ensures lo < hi && |Sort(s)| == |s| && |Resampled(s, n)| == n
    ensures Resampled(s, n)[i] == Mean(Sort(s)[lo..hi])
  {
    hide BinIs, Mean, Cut, BinEnd;
    SortSorts(s);
    var lo', hi' := BinExists(i, |s|, n);
    BinUnique(i, |s|, n, lo, hi, lo', hi');
    BinMeansAt(Sort(s), n, n, i);
  }

  /** With more bins than values, bin `i` is the one value at rank `i * len / n`. */
  lemma QuantileRepeats(s: seq<real>, n: nat, i: nat, k: nat)
    requires 0 < |s| < n && i < n && k * n <= i * |s| < (k + 1) * n
    ensures k < |s| == |Sort(s)| && |Resampled(s, n)| == n && Resampled(s, n)[i] == Sort(s)[k]
  {
    SortSorts(s);
    BinOfOne(Sort(s), n, i, k);
    BinMeansAt(Sort(s), n, n, i);
    MeanOfOne(Sort(s)[k]);
    hide Mean, Bin, Sort;
  }

  lemma BinOfOne(s: seq<real>, n: nat, i: nat, k: nat)
    requires 0 < |s| < n && i < n && k * n <= i * |s| < (k + 1) * n
    ensures k < |s| && Bin(s, n, i) == [s[k]]
  {
    CutBounds(i, |s|, n);
    CutIs(i * |s|, n, k);
    CutsClose(i, |s|, n);
    assert Cut(i, |s|, n) == k;
    hide Cut;
  }

  lemma CutIs(x: nat, n: nat, k: nat)
    requires n > 0 && k * n <= x < (k + 1) * n
    ensures x / n == k
  {
    DivAtMost(x, n, k);
    if k > 0 {
      DivAtMost(x, n, k - 1);
    }
  }

  /** With more bins than values, neighbouring cuts are at most one apart. */
  lemma CutsClose(i: nat, len: nat, n: nat)
    requires len < n
    ensures Cut(i + 1, len, n) <= Cut(i, len, n) + 1
  {
    var x, y := i * len, (i + 1) * len;
    assert y == x + len;
    DivBounds(x, n);
    DivAtMost(y, n, x / n + 1);
    assert (x / n + 2) * n == (x / n) * n + n + n;
  }

  lemma MeanOfOne(x: real)
    ensures Mean([x]) == x
  {
    assert [x][1..] == [];
    assert Sum([x]) == x;
  }

  /** The first `k` bins. */
  function Bins(s: seq<real>, n: nat, k: nat): (r: seq<seq<real>>)
    requires s != [] && k <= n
    ensures |r| == k
  {
    if k == 0 then [] else Bins(s, n, k - 1) + [Bin(s, n, k - 1)]
  }

  /** With no more bins than values, the bins cut the sorted series into consecutive pieces ... */
  lemma {:induction false} BinsPartition(s: seq<real>, n: nat, k: nat)
    requires s != [] && 0 < n <= |s| && k <= n
    ensures Cut(k, |s|, n) <= |s|
    ensures Flatten(Bins(s, n, k)) == s[..Cut(k, |s|, n)]
  {
    hide Cut;
    if k == 0 {
      DivExact(0, n);
      NoCut(|s|, n);
    } else {
      BinsPartition(s, n, k - 1);
      CutsApart(k - 1, |s|, n);
      CutBounds(k - 1, |s|, n);
      FlattenAppend(Bins(s, n, k - 1), [Bin(s, n, k - 1)]);
      assert Flatten([Bin(s, n, k - 1)]) == Bin(s, n, k - 1);
      Consecutive(s, Cut(k - 1, |s|, n), Cut(k, |s|, n));
    }
  }

  lemma NoCut(len: nat, n: nat)
    requires n > 0
    ensures Cut(0, len, n) == 0
  {
  }

  lemma Consecutive(s: seq<real>, lo: nat, hi: nat)
    requires lo <= hi <= |s|
    ensures s[..lo] + s[lo..hi] == s[..hi]
  {
  }

  /** ... and together they are the whole of it. */
  lemma BinsCoverAll(s: seq<real>, n: nat)
    requires s != [] && 0 < n <= |s|
    ensures Flatten(Bins(s, n, n)) == s
  {
    BinsPartition(s, n, n);
    DivExact(|s|, n);
    assert s[..|s|] == s;
  }

  /** Each bin's mean, weighted with its size. */
  function Mass(means: seq<real>, bins: seq<seq<real>>): real
    requires |means| == |bins|
    decreases |means|
  {
    if means == [] then 0.0
    else
      var k := |means| - 1;
      Mass(means[..k], bins[..k]) + Times(means[k], |bins[k]| as real)
  }

  lemma {:induction false} SumAppend(a: seq<real>, b: seq<real>)
    ensures Sum(a + b) == Sum(a) + Sum(b)
  {
    if a == [] {
      assert a + b == b;
    } else {
      SumAppend(a[1..], b);
      assert (a + b)[1..] == a[1..] + b;
    }
  }

  lemma MeanWeight(s: seq<real>)
    requires s != []
    ensures Times(Mean(s), |s| as real) == Sum(s)
  {
    hide Times, Over;
    Quotient(Mean(s), |s| as real, Sum(s));
  }

  lemma {:induction false} BinMass(s: seq<real>, n: nat, k: nat)
    requires s != [] && k <= n
    ensures Mass(BinMeans(s, n, k), Bins(s, n, k)) == Sum(Flatten(Bins(s, n, k)))
  {
    hide Times, Mean, Bin;
    if k > 0 {
      BinMass(s, n, k - 1);
      MeanWeight(Bin(s, n, k - 1));
      FlattenAppend(Bins(s, n, k - 1), [Bin(s, n, k - 1)]);
      assert Flatten([Bin(s, n, k - 1)]) == Bin(s, n, k - 1);
      SumAppend(Flatten(Bins(s, n, k - 1)), Bin(s, n, k - 1));
      assert BinMeans(s, n, k)[..k - 1] == BinMeans(s, n, k - 1) && Bins(s, n, k)[..k - 1] == Bins(s, n, k - 1);
    }
  }

  lemma {:induction false} InsertSum(x: real, s: seq<real>)
    ensures Sum(Insert(x, s)) == x + Sum(s)
  {
    if s == [] || x <= s[0] {
      assert ([x] + s)[1..] == s;
    } else {
      InsertSum(x, s[1..]);
      assert Insert(x, s)[1..] == Insert(x, s[1..]);
    }
  }

  lemma {:induction false} SortSum(s: seq<real>)
    ensures Sum(Sort(s)) == Sum(s)
  {
    if s != [] {
      SortSum(s[1..]);
      InsertSum(s[0], Sort(s[1..]));
    }
  }

  /** With no more bins than values, the weighted bin means add up to the series. */
  lemma MassConserved(s: seq<real>, n: nat)
    requires 0 < n <= |s|
    ensures |Sort(s)| == |s|
    ensures Mass(Resampled(s, n), Bins(Sort(s), n, n)) == Sum(s)
  {
    hide Times, Mean, Bin, Sum;
    SortSorts(s);
    BinMass(Sort(s), n, n);
    BinsCoverAll(Sort(s), n);
    SortSum(s);
  }

  // ------------------------------------------------------------------
  // Order
  // ------------------------------------------------------------------

  ghost predicate Within(s: seq<real>, lo: real, hi: real) {
    forall i :: 0 <= i < |s| ==> lo <= s[i] <= hi
  }

  lemma {:induction false} SumWithin(s: seq<real>, lo: real, hi: real)
    requires Within(s, lo, hi)
    ensures Times(lo, |s| as real) <= Sum(s) <= Times(hi, |s| as real)
  {
    hide Times;
    if s == [] {
      Units(lo);
      Units(hi);
    } else {
      assert Within(s[1..], lo, hi);
      SumWithin(s[1..], lo, hi);
      Units(lo);
      Units(hi);
      Distribute(lo, 1.0, |s[1..]| as real);
      Distribute(hi, 1.0, |s[1..]| as real);
    }
  }

  lemma ProductOrder(x: real, y: real, n: real)
    requires n > 0.0 && Times(x, n) <= Times(y, n)
    ensures x <= y
  {
    hide Times;
    if x > y {
      PositiveProduct(x - y, n);
      Distribute(n, x, y);
    }
  }

  lemma MeanWithin(s: seq<real>, lo: real, hi: real)
    requires s != [] && Within(s, lo, hi)
    ensures lo <= Mean(s) <= hi
  {
    hide Times, Over;
    SumWithin(s, lo, hi);
    var n := |s| as real;
    Quotient(Mean(s), n, Sum(s));
    ProductOrder(lo, Mean(s), n);
    ProductOrder(Mean(s), hi, n);
  }

  /** Neighbouring bins are in order: the first value of the later one separates them. */
  lemma NeighboursInOrder(s: seq<real>, n: nat, i: nat)
    requires s != [] && Ascending(s) && i + 1 < n
    ensures Mean(Bin(s, n, i)) <= Mean(Bin(s, n, i + 1))
  {
    hide Mean, Cut;
    CutBounds(i, |s|, n);
    CutBounds(i + 1, |s|, n);
    var c := s[Cut(i + 1, |s|, n)];
    assert Within(Bin(s, n, i), s[0], c);
    assert Within(Bin(s, n, i + 1), c, s[|s| - 1]);
    MeanWithin(Bin(s, n, i), s[0], c);
    MeanWithin(Bin(s, n, i + 1), c, s[|s| - 1]);
  }

  lemma {:induction false} BinsAscending(s: seq<real>, n: nat, k: nat)
    requires s != [] && Ascending(s) && k <= n
    ensures Ascending(BinMeans(s, n, k))
  {
    hide Mean, Bin;
    if k > 0 {
      BinsAscending(s, n, k - 1);
      if k > 1 {
        NeighboursInOrder(s, n, k - 2);
        BinMeansAt(s, n, k - 1, k - 2);
      }
    }
  }

  /** The resampled series never decreases and has one value per bin. */
  lemma ResampledShape(s: seq<real>, bins: int)
    ensures Ascending(Resampled(s, bins))
    ensures |Resampled(s, bins)| == (if s == [] || bins <= 0 then 0 else bins)
  {
    hide Mean, Bin;
    if s != [] && bins > 0 {
      SortSorts(s);
      BinsAscending(Sort(s), bins, bins);
    }
  }

  /** Only the multiset of values matters. */
  lemma PermutationInvariant(s: seq<real>, t: seq<real>, bins: int)
    requires multiset(s) == multiset(t)
    ensures Resampled(s, bins) == Resampled(t, bins)
  {
    SortSorts(s);
    SortSorts(t);
    SortedUnique(Sort(s), Sort(t));
  }

  // ------------------------------------------------------------------
  // A change of units
  // ------------------------------------------------------------------

  lemma LineMonotone(a: real, b: real, x: real, y: real)
    requires a > 0.0
    ensures x <= y <==> Line(a, b, x) <= Line(a, b, y)
  {
    hide Times;
    Distribute(a, y, x);
    if x < y {
      PositiveProduct(a, y - x);
    } else if y < x {
      PositiveProduct(a, x - y);
      Distribute(a, x, y);
    }
  }

  lemma AffineCons(a: real, b: real, x: real, s: seq<real>)
    ensures AffineMap(a, b, [x] + s) == [Line(a, b, x)] + AffineMap(a, b, s)
  {
    assert ([x] + s)[1..] == s;
  }

  lemma {:induction false} InsertAffine(a: real, b: real, x: real, s: seq<real>)
    requires a > 0.0
    ensures Insert(Line(a, b, x), AffineMap(a, b, s)) == AffineMap(a, b, Insert(x, s))
  {
    hide Line;
    AffineCons(a, b, x, s);
    if s != [] {
      LineMonotone(a, b, x, s[0]);
      if s[0] < x {
        InsertAffine(a, b, x, s[1..]);
        AffineCons(a, b, s[0], Insert(x, s[1..]));
      }
    }
  }

  lemma {:induction false} SortAffine(a: real, b: real, s: seq<real>)
    requires a > 0.0
    ensures Sort(AffineMap(a, b, s)) == AffineMap(a, b, Sort(s))
  {
    hide Line;
    if s != [] {
      SortAffine(a, b, s[1..]);
      InsertAffine(a, b, s[0], Sort(s[1..]));
    }
  }

  lemma AffineSlice(a: real, b: real, s: seq<real>, lo: nat, hi: nat)
    requires lo <= hi <= |s|
    ensures AffineMap(a, b, s)[lo..hi] == AffineMap(a, b, s[lo..hi])
  {
    hide Line;
    forall i | 0 <= i < hi - lo
      ensures AffineMap(a, b, s)[lo..hi][i] == AffineMap(a, b, s[lo..hi])[i]
    {
      AffineAt(a, b, s, lo + i);
      AffineAt(a, b, s[lo..hi], i);
    }
  }

  lemma BinAffine(a: real, b: real, s: seq<real>, n: nat, i: nat)
    requires s != [] && i < n
    ensures Bin(AffineMap(a, b, s), n, i) == AffineMap(a, b, Bin(s, n, i))
  {
    hide Line, Cut;
    CutBounds(i, |s|, n);
    AffineSlice(a, b, s, Cut(i, |s|, n), BinEnd(i, |s|, n));
  }

  lemma AffineSnoc(a: real, b: real, s: seq<real>, x: real)
    ensures AffineMap(a, b, s + [x]) == AffineMap(a, b, s) + [Line(a, b, x)]
  {
    hide Line;
    AffineSlice(a, b, s + [x], 0, |s|);
    AffineAt(a, b, s + [x], |s|);
    assert (s + [x])[0..|s|] == s;
    assert AffineMap(a, b, s + [x]) == AffineMap(a, b, s + [x])[0..|s|] + [AffineMap(a, b, s + [x])[|s|]];
  }

  lemma {:induction false} BinMeansAffine(a: real, b: real, s: seq<real>, n: nat, k: nat)
    requires s != [] && k <= n
    ensures BinMeans(AffineMap(a, b, s), n, k) == AffineMap(a, b, BinMeans(s, n, k))
  {
    hide Line, Mean, Bin;
    if k > 0 {
      BinMeansAffine(a, b, s, n, k - 1);
      BinAffine(a, b, s, n, k - 1);
      MeanAffine(a, b, Bin(s, n, k - 1));
      AffineSnoc(a, b, BinMeans(s, n, k - 1), Mean(Bin(s, n, k - 1)));
    }
  }

  /** Resampling commutes with a positive scale and any offset. */
  lemma ResampleAffine(a: real, b: real, s: seq<real>, bins: int)
    requires a > 0.0
    ensures Resampled(AffineMap(a, b, s), bins) == AffineMap(a, b, Resampled(s, bins))
  {
    hide Line, Mean, Bin;
    if s != [] && bins > 0 {
      SortSorts(s);
      SortAffine(a, b, s);
      BinMeansAffine(a, b, Sort(s), bins, bins);
    }
  }
}
