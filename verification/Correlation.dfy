/** Pearson's R squared over the reals: Cauchy-Schwarz, its equality case, affine invariance. */
module Correlation {
  import opened Basics
  import opened RealAlgebra

  function Sum(s: seq<real>): real {
    if s == [] then 0.0 else s[0] + Sum(s[1..])
  }

  function Mean(s: seq<real>): real
    requires s != []
  {
    Over(Sum(s), |s| as real)
  }

  /** Every value less `m`. */
  function Shift(s: seq<real>, m: real): (r: seq<real>)
    ensures |r| == |s|
  {
    if s == [] then [] else [s[0] - m] + Shift(s[1..], m)
  }

  /** Deviations from the mean. */
  function Centered(s: seq<real>): (r: seq<real>)
    requires s != []
    ensures |r| == |s|
  {
    Shift(s, Mean(s))
  }

  function Dot(u: seq<real>, v: seq<real>): real
    requires |u| == |v|
  {
    if u == [] then 0.0 else Times(u[0], v[0]) + Dot(u[1..], v[1..])
  }

  /** Sum of squared deviations. */
  function Spread(s: seq<real>): real
    requires s != []
  {
    Dot(Centered(s), Centered(s))
  }

  /** Sum of products of deviations. */
  function Cross(xs: seq<real>, ys: seq<real>): real
    requires xs != [] && |xs| == |ys|
  {
    Dot(Centered(xs), Centered(ys))
  }

  const MIN_SAMPLES := 5

  datatype Error = LengthMismatch

  function Score(sxy: real, sxx: real, syy: real): real {
    if sxx == 0.0 || syy == 0.0 then 0.0
    else
      NonZeroProduct(sxx, syy);
      Over(Times(sxy, sxy), Times(sxx, syy))
  }

  /** `pearson_r2`. */
  function PearsonR2(xs: seq<real>, ys: seq<real>): Result<real, Error> {
    if |xs| != |ys| then Err(LengthMismatch)
    else if |xs| < MIN_SAMPLES then Ok(0.0)
    else Ok(Score(Cross(xs, ys), Spread(xs), Spread(ys)))
  }

  // ------------------------------------------------------------------
  // Cauchy-Schwarz
  // ------------------------------------------------------------------

  lemma {:induction false} DotCommutes(u: seq<real>, v: seq<real>)
    requires |u| == |v|
    ensures Dot(u, v) == Dot(v, u)
  {
    hide Times;
    if u != [] {
      Commute(u[0], v[0]);
      DotCommutes(u[1..], v[1..]);
    }
  }

  /** `u - t * v`. */
  function Minus(u: seq<real>, t: real, v: seq<real>): (r: seq<real>)
    requires |u| == |v|
    ensures |r| == |u|
  {
    if u == [] then [] else [u[0] - Times(t, v[0])] + Minus(u[1..], t, v[1..])
  }

  lemma {:induction false} DotMinus(u: seq<real>, t: real, v: seq<real>, z: seq<real>)
    requires |u| == |v| == |z|
    ensures Dot(Minus(u, t, v), z) == Dot(u, z) - Times(t, Dot(v, z))
  {
    hide Times;
    if u == [] {
      Units(t);
    } else {
      DotMinus(u[1..], t, v[1..], z[1..]);
      Distribute(z[0], u[0], Times(t, v[0]));
      Associate(t, v[0], z[0]);
      Distribute(t, Times(v[0], z[0]), Dot(v[1..], z[1..]));
    }
  }

  predicate AllZero(u: seq<real>) {
    forall i :: 0 <= i < |u| ==> u[i] == 0.0
  }

  lemma AllZeroStep(u: seq<real>)
    requires u != []
    ensures AllZero(u) <==> u[0] == 0.0 && AllZero(u[1..])
  {
    assert forall i :: 1 <= i < |u| ==> u[i] == u[1..][i - 1];
    assert forall i :: 0 <= i < |u| - 1 ==> u[1..][i] == u[i + 1];
  }

  lemma {:induction false} DotSquare(u: seq<real>)
    ensures Dot(u, u) >= 0.0
    ensures Dot(u, u) == 0.0 <==> AllZero(u)
  {
    hide Times;
    if u != [] {
      DotSquare(u[1..]);
      Square(u[0]);
      AllZeroStep(u);
    }
  }

  lemma {:induction false} DotZero(u: seq<real>, v: seq<real>)
    requires |u| == |v| && AllZero(v)
    ensures Dot(u, v) == 0.0
  {
    hide Times;
    if u != [] {
      Units(u[0]);
      DotZero(u[1..], v[1..]);
    }
  }

  /** The squared length of what is left of `u` after removing its component along `v`. */
  lemma Residual(u: seq<real>, v: seq<real>)
    requires |u| == |v| && Dot(v, v) != 0.0
    ensures var w := Minus(u, Over(Dot(u, v), Dot(v, v)), v);
      Times(Dot(w, w), Dot(v, v)) == Times(Dot(u, u), Dot(v, v)) - Times(Dot(u, v), Dot(u, v))
  {
    hide Times, Over;
    var t := Over(Dot(u, v), Dot(v, v));
    var w := Minus(u, t, v);
    DotMinus(u, t, v, w);
    DotCommutes(u, w);
    DotCommutes(v, w);
    DotMinus(u, t, v, u);
    DotMinus(u, t, v, v);
    DotCommutes(v, u);
    ResidualAlgebra(Dot(u, u), Dot(u, v), Dot(v, v), t, Dot(w, w));
  }

  lemma ResidualAlgebra(uu: real, uv: real, vv: real, t: real, ww: real)
    requires vv != 0.0 && t == Over(uv, vv)
    requires ww == (uu - Times(t, uv)) - Times(t, uv - Times(t, vv))
    ensures Times(ww, vv) == Times(uu, vv) - Times(uv, uv)
  {
    hide Times, Over;
    Quotient(t, vv, uv);
    Units(t);
    Distribute(vv, uu, Times(t, uv));
    Associate(t, uv, vv);
    Commute(uv, vv);
    Associate(t, vv, uv);
  }

  /** The Cauchy-Schwarz bound on a sum of products ... */
  predicate Dominated(sxy: real, sxx: real, syy: real) {
    sxx >= 0.0 && syy >= 0.0 && Times(sxy, sxy) <= Times(sxx, syy)
  }

  /** ... met with equality. */
  predicate Saturated(sxy: real, sxx: real, syy: real) {
    Times(sxy, sxy) == Times(sxx, syy)
  }

  lemma CauchySchwarz(u: seq<real>, v: seq<real>)
    requires |u| == |v|
    ensures Dominated(Dot(u, v), Dot(u, u), Dot(v, v))
  {
    hide Times, Over;
    DotSquare(u);
    DotSquare(v);
    if Dot(v, v) == 0.0 {
      DotZero(u, v);
      Units(Dot(u, v));
      Units(Dot(u, u));
    } else {
      var w := Minus(u, Over(Dot(u, v), Dot(v, v)), v);
      Residual(u, v);
      DotSquare(w);
      NonNegativeProduct(Dot(w, w), Dot(v, v));
    }
  }

  lemma NonNegativeProduct(x: real, y: real)
    requires x >= 0.0 && y > 0.0
    ensures Times(x, y) >= 0.0
  {
    hide Times;
    if x > 0.0 {
      PositiveProduct(x, y);
    } else {
      Units(y);
    }
  }

  predicate Proportional(u: seq<real>, t: real, v: seq<real>)
    requires |u| == |v|
  {
    forall i :: 0 <= i < |u| ==> u[i] == Times(t, v[i])
  }

  /** Equality holds only for proportional vectors. */
  lemma CauchySchwarzTight(u: seq<real>, v: seq<real>)
    requires |u| == |v| && Dot(v, v) != 0.0
    requires Saturated(Dot(u, v), Dot(u, u), Dot(v, v))
    ensures Proportional(u, Over(Dot(u, v), Dot(v, v)), v)
  {
    hide Times, Over;
    var t := Over(Dot(u, v), Dot(v, v));
    var w := Minus(u, t, v);
    Residual(u, v);
    if Dot(w, w) != 0.0 {
      NonZeroProduct(Dot(w, w), Dot(v, v));
    }
    DotSquare(w);
    forall i | 0 <= i < |u|
      ensures u[i] == Times(t, v[i])
    {
      MinusAt(u, t, v, i);
    }
  }

  lemma {:induction false} MinusAt(u: seq<real>, t: real, v: seq<real>, i: nat)
    requires |u| == |v| && i < |u|
    ensures Minus(u, t, v)[i] == u[i] - Times(t, v[i])
  {
    hide Times;
    if i > 0 {
      MinusAt(u[1..], t, v[1..], i - 1);
    }
  }

  // ------------------------------------------------------------------
  // Affine maps of a series
  // ------------------------------------------------------------------

  function Line(a: real, b: real, x: real): real {
    Times(a, x) + b
  }

  /** `a * x + b` for every `x`. */
  function AffineMap(a: real, b: real, s: seq<real>): (r: seq<real>)
    ensures |r| == |s|
  {
    if s == [] then [] else [Line(a, b, s[0])] + AffineMap(a, b, s[1..])
  }

  lemma {:induction false} AffineAt(a: real, b: real, s: seq<real>, i: nat)
    requires i < |s|
    ensures AffineMap(a, b, s)[i] == Line(a, b, s[i])
  {
    hide Line;
    if i > 0 {
      AffineAt(a, b, s[1..], i - 1);
    }
  }

  function Scale(a: real, u: seq<real>): (r: seq<real>)
    ensures |r| == |u|
  {
    if u == [] then [] else [Times(a, u[0])] + Scale(a, u[1..])
  }

  lemma {:induction false} SumAffine(a: real, b: real, s: seq<real>)
    ensures Sum(AffineMap(a, b, s)) == Times(a, Sum(s)) + Times(b, |s| as real)
  {
    hide Times;
    if s == [] {
      Units(a);
      Units(b);
    } else {
      SumAffine(a, b, s[1..]);
      Distribute(a, s[0], Sum(s[1..]));
      Distribute(b, 1.0, |s[1..]| as real);
      Units(b);
    }
  }

  lemma MeanAlgebra(a: real, b: real, sum: real, n: real)
    requires n != 0.0
    ensures Over(Times(a, sum) + Times(b, n), n) == Line(a, b, Over(sum, n))
  {
    hide Times, Over;
    var m := Over(sum, n);
    Quotient(m, n, sum);
    Distribute(n, Times(a, m), b);
    Associate(a, m, n);
    Quotient(Times(a, m) + b, n, Times(a, sum) + Times(b, n));
  }

  lemma MeanAffine(a: real, b: real, s: seq<real>)
    requires s != []
    ensures Mean(AffineMap(a, b, s)) == Line(a, b, Mean(s))
  {
    hide Times, Over, Line;
    SumAffine(a, b, s);
    MeanAlgebra(a, b, Sum(s), |s| as real);
  }

  lemma {:induction false} ShiftAffine(a: real, b: real, s: seq<real>, m: real)
    ensures Shift(AffineMap(a, b, s), Line(a, b, m)) == Scale(a, Shift(s, m))
  {
    hide Times;
    if s != [] {
      ShiftAffine(a, b, s[1..], m);
      Distribute(a, s[0], m);
    }
  }

  /** Centering removes the offset. */
  lemma CenteredAffine(a: real, b: real, s: seq<real>)
    requires s != []
    ensures Centered(AffineMap(a, b, s)) == Scale(a, Centered(s))
  {
    hide Times, Over, Line;
    MeanAffine(a, b, s);
    ShiftAffine(a, b, s, Mean(s));
  }

  lemma {:induction false} DotScaled(a: real, u: seq<real>, v: seq<real>)
    requires |u| == |v|
    ensures Dot(Scale(a, u), v) == Times(a, Dot(u, v))
  {
    hide Times;
    if u == [] {
      Units(a);
    } else {
      DotScaled(a, u[1..], v[1..]);
      Associate(a, u[0], v[0]);
      Distribute(a, Times(u[0], v[0]), Dot(u[1..], v[1..]));
    }
  }

  lemma SpreadAffine(a: real, b: real, s: seq<real>)
    requires s != []
    ensures Spread(AffineMap(a, b, s)) == Times(a, Times(a, Spread(s)))
  {
    hide Times, Over, Line;
    CenteredAffine(a, b, s);
    var c := Centered(s);
    DotScaled(a, c, Scale(a, c));
    DotCommutes(c, Scale(a, c));
    DotScaled(a, c, c);
  }

  lemma CrossAffine(a: real, b: real, xs: seq<real>, ys: seq<real>)
    requires xs != [] && |xs| == |ys|
    ensures Cross(AffineMap(a, b, xs), ys) == Times(a, Cross(xs, ys))
  {
    hide Times, Over, Line;
    CenteredAffine(a, b, xs);
    DotScaled(a, Centered(xs), Centered(ys));
  }

  lemma ScoreScaled(a: real, sxy: real, sxx: real, syy: real)
    requires a != 0.0
    ensures Score(Times(a, sxy), Times(a, Times(a, sxx)), syy) == Score(sxy, sxx, syy)
  {
    hide Times, Over;
    if sxx == 0.0 {
      Units(a);
    } else {
      NonZeroProduct(a, sxx);
      NonZeroProduct(a, Times(a, sxx));
      if syy != 0.0 {
        NonZeroProduct(sxx, syy);
        Associate(a, Times(a, sxx), syy);
        Associate(a, sxx, syy);
        Associate(a, sxy, Times(a, sxy));
        Commute(sxy, Times(a, sxy));
        Associate(a, sxy, sxy);
        Cancel(a, Times(sxy, sxy), Times(sxx, syy));
        Cancel(a, Times(a, Times(sxy, sxy)), Times(a, Times(sxx, syy)));
      }
    }
  }

  /** R squared is unchanged by a non-zero affine map of the first series ... */
  lemma AffineInvariantLeft(a: real, b: real, xs: seq<real>, ys: seq<real>)
    requires a != 0.0
    ensures PearsonR2(AffineMap(a, b, xs), ys) == PearsonR2(xs, ys)
  {
    hide Times, Score, Cross, Spread;
    if |xs| == |ys| >= MIN_SAMPLES {
      SpreadAffine(a, b, xs);
      CrossAffine(a, b, xs, ys);
      ScoreScaled(a, Cross(xs, ys), Spread(xs), Spread(ys));
    }
  }

  lemma ScoreSymmetric(sxy: real, sxx: real, syy: real)
    ensures Score(sxy, sxx, syy) == Score(sxy, syy, sxx)
  {
    hide Times, Over;
    Commute(sxx, syy);
  }

  lemma R2Symmetric(xs: seq<real>, ys: seq<real>)
    ensures PearsonR2(xs, ys) == PearsonR2(ys, xs)
  {
    hide Times, Score, Spread;
    if |xs| == |ys| >= MIN_SAMPLES {
      DotCommutes(Centered(xs), Centered(ys));
      ScoreSymmetric(Cross(xs, ys), Spread(xs), Spread(ys));
    }
  }

  /** ... nor of the second. */
  lemma AffineInvariantRight(a: real, b: real, xs: seq<real>, ys: seq<real>)
    requires a != 0.0
    ensures PearsonR2(xs, AffineMap(a, b, ys)) == PearsonR2(xs, ys)
  {
    hide PearsonR2;
    R2Symmetric(xs, ys);
    AffineInvariantLeft(a, b, ys, xs);
    R2Symmetric(AffineMap(a, b, ys), xs);
  }

  // ------------------------------------------------------------------
  // Range, and what a perfect score means
  // ------------------------------------------------------------------

  lemma ScoreRange(sxy: real, sxx: real, syy: real)
    requires Dominated(sxy, sxx, syy)
    ensures 0.0 <= Score(sxy, sxx, syy) <= 1.0
    ensures sxx != 0.0 && syy != 0.0 ==> (Score(sxy, sxx, syy) == 1.0 <==> Saturated(sxy, sxx, syy))
  {
    hide Times, Over;
    if sxx != 0.0 && syy != 0.0 {
      Square(sxy);
      PositiveProduct(sxx, syy);
      Fraction(Times(sxy, sxy), Times(sxx, syy));
    }
  }

  /** R squared lies in [0, 1]; only unequal lengths have no score. */
  lemma R2Range(xs: seq<real>, ys: seq<real>)
    ensures PearsonR2(xs, ys).Ok? <==> |xs| == |ys|
    ensures |xs| == |ys| ==> 0.0 <= PearsonR2(xs, ys).value <= 1.0
  {
    hide Times, Score;
    if |xs| == |ys| >= MIN_SAMPLES {
      CauchySchwarz(Centered(xs), Centered(ys));
      ScoreRange(Cross(xs, ys), Spread(xs), Spread(ys));
    }
  }

  /** Long enough to be scored, and not constant. */
  predicate Scorable(xs: seq<real>) {
    |xs| >= MIN_SAMPLES && Spread(xs) != 0.0
  }

  /** `ys` is an affine image of `xs`. */
  ghost predicate AffineImage(xs: seq<real>, ys: seq<real>) {
    exists a: real, b: real :: ys == AffineMap(a, b, xs)
  }

  lemma SelfScore(x: real)
    requires x != 0.0
    ensures Score(x, x, x) == 1.0
  {
    hide Times, Over;
    NonZeroProduct(x, x);
    Units(Times(x, x));
    Quotient(1.0, Times(x, x), Times(x, x));
  }

  /** A series against an affine copy of itself scores exactly 1. */
  lemma PerfectCopy(xs: seq<real>, a: real, b: real)
    requires Scorable(xs) && a != 0.0
    ensures PearsonR2(xs, AffineMap(a, b, xs)) == Ok(1.0)
  {
    hide Times, Score;
    AffineInvariantRight(a, b, xs, xs);
    SelfScore(Spread(xs));
  }

  /** For two series that vary, the score is 1 exactly when one is an affine image of the other. */
  lemma PerfectScore(xs: seq<real>, ys: seq<real>)
    requires Scorable(xs) && Scorable(ys) && |xs| == |ys|
    ensures PearsonR2(xs, ys) == Ok(1.0) <==> AffineImage(xs, ys)
  {
    hide Times, Score;
    if PearsonR2(xs, ys) == Ok(1.0) {
      PerfectMeansSaturated(xs, ys);
      CauchySchwarzTight(Centered(ys), Centered(xs));
      Recentered(xs, ys, Over(Cross(ys, xs), Spread(xs)));
    }
    if AffineImage(xs, ys) {
      var a: real, b: real :| ys == AffineMap(a, b, xs);
      SpreadAffine(a, b, xs);
      Units(Times(a, Spread(xs)));
      PerfectCopy(xs, a, b);
    }
  }

  lemma PerfectMeansSaturated(xs: seq<real>, ys: seq<real>)
    requires Scorable(xs) && Scorable(ys) && PearsonR2(xs, ys) == Ok(1.0)
    ensures |xs| == |ys| && Saturated(Cross(ys, xs), Spread(ys), Spread(xs))
  {
    hide Times, Score;
    R2Symmetric(xs, ys);
    CauchySchwarz(Centered(ys), Centered(xs));
    ScoreRange(Cross(ys, xs), Spread(ys), Spread(xs));
  }

  lemma {:induction false} ShiftAt(s: seq<real>, m: real, i: nat)
    requires i < |s|
    ensures Shift(s, m)[i] == s[i] - m
  {
    if i > 0 {
      ShiftAt(s[1..], m, i - 1);
    }
  }

  lemma Recentered(xs: seq<real>, ys: seq<real>, t: real)
    requires xs != [] && |xs| == |ys| && Proportional(Centered(ys), t, Centered(xs))
    ensures AffineImage(xs, ys)
  {
    hide Times, Over;
    var b := Mean(ys) - Times(t, Mean(xs));
    forall i | 0 <= i < |xs|
      ensures ys[i] == AffineMap(t, b, xs)[i]
    {
      AffineAt(t, b, xs, i);
      ShiftAt(xs, Mean(xs), i);
      ShiftAt(ys, Mean(ys), i);
      assert Centered(ys)[i] == Times(t, Centered(xs)[i]);
      Distribute(t, xs[i], Mean(xs));
    }
    assert ys == AffineMap(t, b, xs);
  }
}
