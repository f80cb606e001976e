/** Rank-quantile correlation: which series are compared, and that a rescaled copy is always found. */
module RankQuantile {
  import opened Basics
  import opened RealAlgebra
  import opened Correlation
  import opened Quantile

  // ------------------------------------------------------------------
  // The ramp filter
  // ------------------------------------------------------------------

  function RampValue(lo: real, hi: real, i: nat, n: nat): real
    requires n > 1
  {
    lo + Over(Times(hi - lo, i as real), (n - 1) as real)
  }

  /** The first `k` of `n` points on the straight line from `lo` to `hi`. */
  function RampTo(lo: real, hi: real, n: nat, k: nat): (r: seq<real>)
    requires n > 1
    ensures |r| == k
  {
    if k == 0 then [] else RampTo(lo, hi, n, k - 1) + [RampValue(lo, hi, k - 1, n)]
  }

  function Ramp(r: seq<real>): (ramp: seq<real>)
    requires |r| > 1
    ensures |ramp| == |r|
  {
    RampTo(r[0], r[|r| - 1], |r|, |r|)
  }

  /** First and last value differ; for an ascending series, that it is not constant. */
  predicate Varies(r: seq<real>) {
    r != [] && r[|r| - 1] != r[0]
  }

  /** `_is_featureless`. */
  predicate IsFeatureless(r: seq<real>, threshold: real) {
    if |r| < MIN_SAMPLES then true
    else if !Varies(r) then true
    else PearsonR2(r, Ramp(r)).value > threshold
  }

  lemma RampValueAffine(a: real, b: real, lo: real, hi: real, i: nat, n: nat)
    requires n > 1
    ensures RampValue(Line(a, b, lo), Line(a, b, hi), i, n) == Line(a, b, RampValue(lo, hi, i, n))
  {
    hide Times, Over;
    var d, k, m := hi - lo, i as real, (n - 1) as real;
    var q := Over(Times(d, k), m);
    Distribute(a, hi, lo);
    Associate(a, d, k);
    Quotient(q, m, Times(d, k));
    Associate(a, q, m);
    Quotient(Times(a, q), m, Times(a, Times(d, k)));
    Distribute(a, lo, q);
  }

  lemma {:induction false} RampToAffine(a: real, b: real, lo: real, hi: real, n: nat, k: nat)
    requires n > 1
    ensures RampTo(Line(a, b, lo), Line(a, b, hi), n, k) == AffineMap(a, b, RampTo(lo, hi, n, k))
  {
    hide Line, RampValue;
    if k > 0 {
      RampToAffine(a, b, lo, hi, n, k - 1);
      RampValueAffine(a, b, lo, hi, k - 1, n);
      AffineSnoc(a, b, RampTo(lo, hi, n, k - 1), RampValue(lo, hi, k - 1, n));
    }
  }

  lemma RampAffine(a: real, b: real, r: seq<real>)
    requires |r| > 1
    ensures Ramp(AffineMap(a, b, r)) == AffineMap(a, b, Ramp(r))
  {
    hide Line;
    AffineAt(a, b, r, 0);
    AffineAt(a, b, r, |r| - 1);
    RampToAffine(a, b, r[0], r[|r| - 1], |r|, |r|);
  }

  lemma LineInjective(a: real, b: real, x: real, y: real)
    requires a != 0.0
    ensures Line(a, b, x) == Line(a, b, y) <==> x == y
  {
    hide Times;
    Distribute(a, x, y);
    if x != y {
      NonZeroProduct(a, x - y);
    }
  }

  lemma VariesAffine(a: real, b: real, r: seq<real>)
    requires a != 0.0
    ensures Varies(AffineMap(a, b, r)) == Varies(r)
  {
    hide Line;
    if r != [] {
      AffineAt(a, b, r, 0);
      AffineAt(a, b, r, |r| - 1);
      LineInjective(a, b, r[|r| - 1], r[0]);
    }
  }

  /** The filter does not see a change of units. */
  lemma FeaturelessAffine(a: real, b: real, r: seq<real>, threshold: real)
    requires a != 0.0
    ensures IsFeatureless(AffineMap(a, b, r), threshold) == IsFeatureless(r, threshold)
  {
    hide Line, Varies, PearsonR2, Ramp;
    VariesAffine(a, b, r);
    if |r| >= MIN_SAMPLES {
      RampAffine(a, b, r);
      AffineInvariantLeft(a, b, r, AffineMap(a, b, Ramp(r)));
      AffineInvariantRight(a, b, r, Ramp(r));
    }
  }

  /** A series that varies has spread. */
  lemma VariesHasSpread(r: seq<real>)
    requires Varies(r)
    ensures Spread(r) != 0.0
  {
    hide Times, Over, Mean;
    DotSquare(Centered(r));
    ShiftAt(r, Mean(r), 0);
    ShiftAt(r, Mean(r), |r| - 1);
  }

  ghost predicate Constant(r: seq<real>, c: real) {
    forall i :: 0 <= i < |r| ==> r[i] == c
  }

  /** A constant series has none. */
  lemma ConstantHasNone(r: seq<real>, c: real)
    requires r != [] && Constant(r, c)
    ensures Spread(r) == 0.0
  {
    hide Times, Over, Mean;
    assert Within(r, c, c);
    MeanWithin(r, c, c);
    forall i | 0 <= i < |r|
      ensures Centered(r)[i] == 0.0
    {
      ShiftAt(r, Mean(r), i);
    }
    DotSquare(Centered(r));
  }

  /** For an ascending series, spread and variation are the same thing. */
  lemma SpreadExact(r: seq<real>)
    requires r != [] && Ascending(r)
    ensures Spread(r) != 0.0 <==> Varies(r)
  {
    hide Spread;
    if Varies(r) {
      VariesHasSpread(r);
    } else {
      assert Constant(r, r[0]);
      ConstantHasNone(r, r[0]);
    }
  }

  /** Every straight line is rejected. */
  lemma StraightLineRejected(r: seq<real>, threshold: real)
    requires threshold < 1.0 && |r| > 1 && r == Ramp(r)
    ensures IsFeatureless(r, threshold)
  {
    hide Ramp, Spread;
    if |r| >= MIN_SAMPLES && Varies(r) {
      VariesHasSpread(r);
      SelfScores(r);
    }
  }

  /** 0, 1, 2, and so on. */
  function Ranks(k: nat): (r: seq<real>)
    ensures |r| == k && forall i :: 0 <= i < k ==> r[i] == i as real
  {
    if k == 0 then [] else Ranks(k - 1) + [(k - 1) as real]
  }

  lemma RampValueLine(lo: real, hi: real, i: nat, n: nat)
    requires n > 1
    ensures RampValue(lo, hi, i, n) == Line(Over(hi - lo, (n - 1) as real), lo, i as real)
  {
    hide Times, Over;
    var d, k, m := hi - lo, i as real, (n - 1) as real;
    var q := Over(d, m);
    Quotient(q, m, d);
    Associate(q, k, m);
    Associate(q, m, k);
    Commute(k, m);
    Quotient(Times(q, k), m, Times(d, k));
  }

  lemma {:induction false} RampToRanks(lo: real, hi: real, n: nat, k: nat)
    requires n > 1
    ensures RampTo(lo, hi, n, k) == AffineMap(Over(hi - lo, (n - 1) as real), lo, Ranks(k))
  {
    hide Line, RampValue, Over;
    var slope := Over(hi - lo, (n - 1) as real);
    if k > 0 {
      RampToRanks(lo, hi, n, k - 1);
      RampValueLine(lo, hi, k - 1, n);
      AffineSnoc(slope, lo, Ranks(k - 1), (k - 1) as real);
    }
  }

  lemma SlopeNotZero(lo: real, hi: real, m: real)
    requires lo != hi && m != 0.0
    ensures Over(hi - lo, m) != 0.0
  {
    Quotient(Over(hi - lo, m), m, hi - lo);
    Units(m);
  }

  /**
   A series is dropped exactly when it has fewer than five values, ends where it starts, or
   correlates with the mere rank of its values above the threshold.
   */
  lemma FeaturelessExact(r: seq<real>, threshold: real)
    ensures IsFeatureless(r, threshold) <==>
      |r| < 5 || r[0] == r[|r| - 1] || PearsonR2(r, Ranks(|r|)).value > threshold
    ensures |r| >= 5 ==> PearsonR2(r, Ranks(|r|)).Ok?
  {
    hide PearsonR2, Over;
    if |r| >= 5 {
      R2Range(r, Ranks(|r|));
      if r[0] != r[|r| - 1] {
        var n, lo, hi := |r|, r[0], r[|r| - 1];
        RampToRanks(lo, hi, n, n);
        SlopeNotZero(lo, hi, (n - 1) as real);
        AffineInvariantRight(Over(hi - lo, (n - 1) as real), lo, r, Ranks(n));
      }
    }
  }

  lemma SelfScores(r: seq<real>)
    requires Scorable(r)
    ensures PearsonR2(r, r) == Ok(1.0)
  {
    hide Score;
    SelfScore(Spread(r));
  }

  // ------------------------------------------------------------------
  // A rescaled copy
  // ------------------------------------------------------------------

  /** Every number in other units; the other readings stay what they are. */
  function Rescaled(a: real, b: real, values: seq<Reading>): seq<Reading> {
    if values == [] then []
    else
      [if values[0].Number? then Number(Line(a, b, values[0].value)) else values[0]] + Rescaled(a, b, values[1..])
  }

  lemma {:induction false} CleanedRescaled(a: real, b: real, values: seq<Reading>)
    ensures Cleaned(Rescaled(a, b, values)) == AffineMap(a, b, Cleaned(values))
  {
    hide Line;
    if values != [] {
      CleanedRescaled(a, b, values[1..]);
      assert Rescaled(a, b, values)[1..] == Rescaled(a, b, values[1..]);
      if values[0].Number? {
        AffineCons(a, b, values[0].value, Cleaned(values[1..]));
      } else {
        assert Cleaned(values) == Cleaned(values[1..]);
        assert Cleaned(Rescaled(a, b, values)) == Cleaned(Rescaled(a, b, values[1..]));
      }
    }
  }

  /**
   * `ts` holds the values of `fs` in other units (scale `a > 0`, offset `b`), in any order and with
   * any missing readings in between. Then the two score 1 exactly when the bins of `fs` vary.
   */
  lemma Recovered(fs: seq<Reading>, ts: seq<Reading>, a: real, b: real, bins: int)
    requires a > 0.0 && bins >= MIN_SAMPLES
    requires multiset(Cleaned(ts)) == multiset(Cleaned(Rescaled(a, b, fs)))
    ensures PearsonR2(Resampled(Cleaned(fs), bins), Resampled(Cleaned(ts), bins)) == Ok(1.0)
      <==> Varies(Resampled(Cleaned(fs), bins))
  {
    hide PearsonR2, Resampled, Line, Spread;
    var r := Resampled(Cleaned(fs), bins);
    CopyResampled(fs, ts, a, b, bins);
    ResampledShape(Cleaned(fs), bins);
    if r == [] {
      EmptyScore();
    } else {
      SpreadExact(r);
      if Varies(r) {
        PerfectCopy(r, a, b);
      } else {
        FlatScore(r, AffineMap(a, b, r));
      }
    }
  }

  lemma CopyResampled(fs: seq<Reading>, ts: seq<Reading>, a: real, b: real, bins: int)
    requires a > 0.0 && multiset(Cleaned(ts)) == multiset(Cleaned(Rescaled(a, b, fs)))
    ensures Resampled(Cleaned(ts), bins) == AffineMap(a, b, Resampled(Cleaned(fs), bins))
  {
    hide Resampled, Line;
    CleanedRescaled(a, b, fs);
    PermutationInvariant(Cleaned(ts), AffineMap(a, b, Cleaned(fs)), bins);
    ResampleAffine(a, b, Cleaned(fs), bins);
  }

  lemma EmptyScore()
    ensures PearsonR2([], []) == Ok(0.0)
  {
  }

  lemma FlatScore(xs: seq<real>, ys: seq<real>)
    requires |xs| == |ys| >= MIN_SAMPLES && Spread(xs) == 0.0
    ensures PearsonR2(xs, ys) == Ok(0.0)
  {
    hide Spread, Cross;
  }

  // ------------------------------------------------------------------
  // All pairs
  // ------------------------------------------------------------------

  datatype Encoding = U8 | S8 | U16Be | U16Le | S16Be | S16Le | F32Be | F32Le

  /** `enc_bytes`. */
  function Width(e: Encoding): nat {
    match e
    case U8 | S8 => 1
    case U16Be | U16Le | S16Be | S16Le => 2
    case F32Be | F32Le => 4
  }

  datatype Slot = Slot(did: nat, offset: nat, encoding: Encoding)

  datatype Cell = Cell(base: nat, encoding: Encoding)

  /** One dictionary entry, in insertion order. */
  datatype Series<K, V> = Series(key: K, values: seq<V>)

  datatype Pair = Pair(slot: Slot, cell: Cell, r2: real, bins: int)

  const THRESHOLD := 0.995

  /** The resampled series that pass the filter. */
  function Kept<K>(series: seq<Series<K, Reading>>, bins: int, reject: bool): seq<Series<K, real>> {
    if series == [] then []
    else
      var r := Resampled(Cleaned(series[0].values), bins);
      (if reject && IsFeatureless(r, THRESHOLD) then [] else [Series(series[0].key, r)])
      + Kept(series[1..], bins, reject)
  }

  /** Same width, and neither series empty or of another length. */
  predicate Comparable(f: Series<Slot, real>, t: Series<Cell, real>) {
    && f.values != []
    && Width(t.key.encoding) == Width(f.key.encoding)
    && |t.values| == |f.values|
  }

  function Scored(f: Series<Slot, real>, t: Series<Cell, real>, bins: int): Pair
    requires Comparable(f, t)
  {
    Pair(f.key, t.key, PearsonR2(f.values, t.values).value, bins)
  }

  /** The pairs of one row, in column order. */
  function RowPairs(f: Series<Slot, real>, ts: seq<Series<Cell, real>>, bins: int): seq<Pair> {
    if ts == [] then []
    else
      (if Comparable(f, ts[0]) then [Scored(f, ts[0], bins)] else []) + RowPairs(f, ts[1..], bins)
  }

  function AllPairs(fs: seq<Series<Slot, real>>, ts: seq<Series<Cell, real>>, bins: int): seq<Pair> {
    if fs == [] then [] else RowPairs(fs[0], ts, bins) + AllPairs(fs[1..], ts, bins)
  }

  lemma {:induction false} KeptAppend<K>(
    a: seq<Series<K, Reading>>, b: seq<Series<K, Reading>>, bins: int, reject: bool)
    ensures Kept(a + b, bins, reject) == Kept(a, bins, reject) + Kept(b, bins, reject)
  {
    hide Resampled, IsFeatureless;
    if a == [] {
      assert a + b == b;
    } else {
      KeptAppend(a[1..], b, bins, reject);
      assert (a + b)[0] == a[0] && (a + b)[1..] == a[1..] + b;
      var r := Resampled(Cleaned(a[0].values), bins);
      var head := if reject && IsFeatureless(r, THRESHOLD) then [] else [Series(a[0].key, r)];
      Assoc(head, Kept(a[1..], bins, reject), Kept(b, bins, reject));
    }
  }

  lemma {:induction false} RowPairsAppend(f: Series<Slot, real>, a: seq<Series<Cell, real>>, b: seq<Series<Cell, real>>,
                                          bins: int)
    ensures RowPairs(f, a + b, bins) == RowPairs(f, a, bins) + RowPairs(f, b, bins)
  {
    hide Comparable;
    if a == [] {
      assert a + b == b;
    } else {
      RowPairsAppend(f, a[1..], b, bins);
      assert (a + b)[0] == a[0] && (a + b)[1..] == a[1..] + b;
      var head := if Comparable(f, a[0]) then [Scored(f, a[0], bins)] else [];
      Assoc(head, RowPairs(f, a[1..], bins), RowPairs(f, b, bins));
    }
  }

  lemma {:induction false} AllPairsAppend(a: seq<Series<Slot, real>>, b: seq<Series<Slot, real>>,
                                          ts: seq<Series<Cell, real>>, bins: int)
    ensures AllPairs(a + b, ts, bins) == AllPairs(a, ts, bins) + AllPairs(b, ts, bins)
  {
    hide RowPairs;
    if a == [] {
      assert a + b == b;
    } else {
      AllPairsAppend(a[1..], b, ts, bins);
      assert (a + b)[1..] == a[1..] + b;
      Assoc(RowPairs(a[0], ts, bins), AllPairs(a[1..], ts, bins), AllPairs(b, ts, bins));
    }
  }

  method Resample<K>(series: seq<Series<K, Reading>>, bins: int, reject: bool) returns (kept: seq<Series<K, real>>)
    ensures kept == Kept(series, bins, reject)
  {
    kept := [];
    for k := 0 to |series|
      invariant kept == Kept(series[..k], bins, reject)
    {
      assert series[..k + 1] == series[..k] + [series[k]];
      KeptAppend(series[..k], [series[k]], bins, reject);
      var r := QuantileResample(series[k].values, bins);
      if !reject || !IsFeatureless(r, THRESHOLD) {
        kept := kept + [Series(series[k].key, r)];
      }
    }
    assert series[..|series|] == series;
  }

  /** `correlate_rank_quantile`. */
  method Correlate(fSeries: seq<Series<Slot, Reading>>, tSeries: seq<Series<Cell, Reading>>, bins: int, reject: bool)
    returns (pairs: seq<Pair>)
    ensures pairs == AllPairs(Kept(fSeries, bins, reject), Kept(tSeries, bins, reject), bins)
  {
    hide Kept, RowPairs;
    var fs := Resample(fSeries, bins, reject);
    var ts := Resample(tSeries, bins, reject);
    pairs := [];
    for i := 0 to |fs|
      invariant pairs == AllPairs(fs[..i], ts, bins)
    {
      assert fs[..i + 1] == fs[..i] + [fs[i]];
      AllPairsAppend(fs[..i], [fs[i]], ts, bins);
      var row := Row(fs[i], ts, bins);
      pairs := pairs + row;
    }
    assert fs[..|fs|] == fs;
  }

  /** The inner loop of `correlate_rank_quantile`. */
  method Row(f: Series<Slot, real>, ts: seq<Series<Cell, real>>, bins: int) returns (row: seq<Pair>)
    ensures row == RowPairs(f, ts, bins)
  {
    row := [];
    for j := 0 to |ts|
      invariant row == RowPairs(f, ts[..j], bins)
    {
      assert ts[..j + 1] == ts[..j] + [ts[j]];
      RowPairsAppend(f, ts[..j], [ts[j]], bins);
      if Comparable(f, ts[j]) {
        var r2 := PearsonR2(f.values, ts[j].values);
        row := row + [Pair(f.key, ts[j].key, r2.value, bins)];
      }
    }
    assert ts[..|ts|] == ts;
  }

  /** A series that survives the filter is in the kept list, and nothing else is. */
  lemma {:induction false} KeptExact<K>(series: seq<Series<K, Reading>>, bins: int, reject: bool, k: Series<K, real>)
    ensures k in Kept(series, bins, reject) <==>
            exists s <- series :: SurvivesAs(s, bins, reject, k)
  {
    hide SurvivesAs;
    if series != [] {
      KeptExact(series[1..], bins, reject, k);
      KeptHead(series[0], bins, reject, k);
      assert series == [series[0]] + series[1..];
      assert (exists s <- series :: SurvivesAs(s, bins, reject, k)) <==>
          SurvivesAs(series[0], bins, reject, k) || exists s <- series[1..] :: SurvivesAs(s, bins, reject, k);
    }
  }

  predicate SurvivesAs<K(==)>(s: Series<K, Reading>, bins: int, reject: bool, k: Series<K, real>) {
    && k == Series(s.key, Resampled(Cleaned(s.values), bins))
    && !(reject && IsFeatureless(k.values, 0.995))
  }

  lemma KeptHead<K>(s: Series<K, Reading>, bins: int, reject: bool, k: Series<K, real>)
    ensures k in (if reject && IsFeatureless(Resampled(Cleaned(s.values), bins), THRESHOLD) then []
                  else [Series(s.key, Resampled(Cleaned(s.values), bins))])
      <==> SurvivesAs(s, bins, reject, k)
  {
    hide Resampled, IsFeatureless;
  }

  /** Both one byte wide, both two, or both four. */
  predicate SameWidth(a: Encoding, b: Encoding) {
    || (a in {U8, S8} && b in {U8, S8})
    || (a in {U16Be, U16Le, S16Be, S16Le} && b in {U16Be, U16Le, S16Be, S16Le})
    || (a in {F32Be, F32Le} && b in {F32Be, F32Le})
  }

  /** The pair of two series of one width and one length, none empty, with their R squared. */
  ghost predicate PairOf(f: Series<Slot, real>, t: Series<Cell, real>, bins: int, p: Pair) {
    && SameWidth(f.key.encoding, t.key.encoding)
    && |f.values| == |t.values| > 0
    && PearsonR2(f.values, t.values) == Ok(p.r2)
    && p.slot == f.key && p.cell == t.key && p.bins == bins
  }

  lemma PairExact(f: Series<Slot, real>, t: Series<Cell, real>, bins: int, p: Pair)
    ensures PairOf(f, t, bins, p) <==> Comparable(f, t) && p == Scored(f, t, bins)
  {
    assert SameWidth(f.key.encoding, t.key.encoding) <==> Width(f.key.encoding) == Width(t.key.encoding);
    hide SameWidth, Width;
    R2Range(f.values, t.values);
    hide PearsonR2;
  }

  lemma {:induction false} RowPairsExact(f: Series<Slot, real>, ts: seq<Series<Cell, real>>, bins: int, p: Pair)
    ensures p in RowPairs(f, ts, bins) <==> exists t <- ts :: PairOf(f, t, bins, p)
  {
    hide Comparable, Scored, PairOf;
    if ts != [] {
      PairExact(f, ts[0], bins, p);
      RowPairsExact(f, ts[1..], bins, p);
      assert ts == [ts[0]] + ts[1..];
      assert (exists t <- ts :: PairOf(f, t, bins, p)) <==>
          PairOf(f, ts[0], bins, p) || exists t <- ts[1..] :: PairOf(f, t, bins, p);
    }
  }

  /** The result lists exactly the comparable pairs, each with its score. */
  lemma {:induction false} AllPairsExact(fs: seq<Series<Slot, real>>, ts: seq<Series<Cell, real>>, bins: int, p: Pair)
    ensures p in AllPairs(fs, ts, bins) <==> exists f <- fs, t <- ts :: PairOf(f, t, bins, p)
  {
    hide PairOf;
    if fs != [] {
      AllPairsExact(fs[1..], ts, bins, p);
      RowPairsExact(fs[0], ts, bins, p);
      assert fs == [fs[0]] + fs[1..];
    }
  }

  /** Every reported score is a proper R squared. */
  lemma ScoresInRange(fs: seq<Series<Slot, real>>, ts: seq<Series<Cell, real>>, bins: int, p: Pair)
    requires p in AllPairs(fs, ts, bins)
    ensures 0.0 <= p.r2 <= 1.0 && p.bins == bins && SameWidth(p.slot.encoding, p.cell.encoding)
  {
    hide PearsonR2;
    AllPairsExact(fs, ts, bins, p);
    var f, t :| f in fs && t in ts && PairOf(f, t, bins, p);
    R2Range(f.values, t.values);
  }

  /**
   * A series and a rescaled copy of it, of one width, are reported as a perfect match whenever the
   * series varies and, with the filter on, is not a ramp.
   */
  lemma CopyReported(fSeries: seq<Series<Slot, Reading>>, tSeries: seq<Series<Cell, Reading>>,
                     f: Series<Slot, Reading>, t: Series<Cell, Reading>, a: real, b: real, bins: int, reject: bool)
    requires f in fSeries && t in tSeries && SameWidth(f.key.encoding, t.key.encoding)
    requires a > 0.0 && bins >= MIN_SAMPLES
    requires multiset(Cleaned(t.values)) == multiset(Cleaned(Rescaled(a, b, f.values)))
    requires Varies(Resampled(Cleaned(f.values), bins))
    requires reject ==> !IsFeatureless(Resampled(Cleaned(f.values), bins), 0.995)
    ensures Pair(f.key, t.key, 1.0, bins) in AllPairs(Kept(fSeries, bins, reject), Kept(tSeries, bins, reject), bins)
  {
    hide PearsonR2, Resampled, IsFeatureless, AllPairs, Kept, Line;
    var r := Resampled(Cleaned(f.values), bins);
    CopyResampled(f.values, t.values, a, b, bins);
    FeaturelessAffine(a, b, r, THRESHOLD);
    Recovered(f.values, t.values, a, b, bins);
    var kf, kt := Series(f.key, r), Series(t.key, AffineMap(a, b, r));
    assert SurvivesAs(f, bins, reject, kf) && SurvivesAs(t, bins, reject, kt);
    KeptExact(fSeries, bins, reject, kf);
    KeptExact(tSeries, bins, reject, kt);
    var p := Pair(f.key, t.key, 1.0, bins);
    assert PairOf(kf, kt, bins, p);
    AllPairsExact(Kept(fSeries, bins, reject), Kept(tSeries, bins, reject), bins, p);
  }
}
