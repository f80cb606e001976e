/** R squared is the coefficient of determination: one minus the best line's share of the spread. */
module LeastSquares {
  import opened Basics
  import opened RealAlgebra
  import opened Correlation

  /** What the line `y = a * x + b` leaves of each sample. */
  function Errors(xs: seq<real>, ys: seq<real>, a: real, b: real): (r: seq<real>)
    requires |xs| == |ys|
    ensures |r| == |xs|
  {
    if xs == [] then [] else [ys[0] - Line(a, b, xs[0])] + Errors(xs[1..], ys[1..], a, b)
  }

  /** Sum of squared errors. */
  function Sse(xs: seq<real>, ys: seq<real>, a: real, b: real): real
    requires |xs| == |ys|
  {
    Dot(Errors(xs, ys, a, b), Errors(xs, ys, a, b))
  }

  // ------------------------------------------------------------------
  // Offset and slope apart
  // ------------------------------------------------------------------

  /** The errors are those of the centred series, moved by the line's error at the means. */
  lemma {:induction false} ErrorsCentered(xs: seq<real>, ys: seq<real>, a: real, b: real, mx: real, my: real)
    requires |xs| == |ys|
    ensures Errors(xs, ys, a, b) == Shift(Minus(Shift(ys, my), a, Shift(xs, mx)), Line(a, b, mx) - my)
  {
    hide Times;
    if xs != [] {
      ErrorsCentered(xs[1..], ys[1..], a, b, mx, my);
      Distribute(a, xs[0], mx);
    }
  }

  lemma {:induction false} SumShift(s: seq<real>, m: real)
    ensures Sum(Shift(s, m)) == Sum(s) - Times(m, |s| as real)
  {
    hide Times;
    Units(m);
    if s != [] {
      SumShift(s[1..], m);
      Distribute(m, 1.0, |s[1..]| as real);
    }
  }

  lemma CenteredSum(s: seq<real>)
    requires s != []
    ensures Sum(Centered(s)) == 0.0
  {
    hide Times, Over;
    SumShift(s, Mean(s));
    Quotient(Mean(s), |s| as real, Sum(s));
  }

  lemma {:induction false} SumMinus(u: seq<real>, t: real, v: seq<real>)
    requires |u| == |v|
    ensures Sum(Minus(u, t, v)) == Sum(u) - Times(t, Sum(v))
  {
    hide Times;
    if u == [] {
      Units(t);
    } else {
      SumMinus(u[1..], t, v[1..]);
      Distribute(t, v[0], Sum(v[1..]));
    }
  }

  lemma ShiftSquare(x: real, m: real)
    ensures Times(x - m, x - m) == Times(x, x) - Times(m + m, x) + Times(m, m)
  {
    hide Times;
    Distribute(x - m, x, m);
    Distribute(x, x, m);
    Distribute(m, x, m);
    Distribute(x, m, m);
    Commute(x, m);
  }

  lemma {:induction false} ShiftedSquares(s: seq<real>, m: real)
    ensures Dot(Shift(s, m), Shift(s, m)) == Dot(s, s) - Times(m + m, Sum(s)) + Times(Times(m, m), |s| as real)
  {
    hide Times;
    Units(m + m);
    Units(Times(m, m));
    if s != [] {
      ShiftedSquares(s[1..], m);
      ShiftSquare(s[0], m);
      Distribute(m + m, s[0], Sum(s[1..]));
      Distribute(Times(m, m), 1.0, |s[1..]| as real);
    }
  }

  /** With the slope fixed, moving the line off the means only adds error. */
  lemma OffsetCosts(xs: seq<real>, ys: seq<real>, a: real, b: real)
    requires |xs| == |ys| && xs != []
    ensures var w, m := Minus(Centered(ys), a, Centered(xs)), Line(a, b, Mean(xs)) - Mean(ys);
      Dot(w, w) <= Sse(xs, ys, a, b) && (m == 0.0 ==> Sse(xs, ys, a, b) == Dot(w, w))
  {
    hide Times, Over, Line;
    var w, m := Minus(Centered(ys), a, Centered(xs)), Line(a, b, Mean(xs)) - Mean(ys);
    ErrorsCentered(xs, ys, a, b, Mean(xs), Mean(ys));
    ShiftedSquares(w, m);
    SumMinus(Centered(ys), a, Centered(xs));
    CenteredSum(xs);
    CenteredSum(ys);
    Units(a);
    Units(m + m);
    Square(m);
    NonNegativeProduct(Times(m, m), |w| as real);
    Units(|w| as real);
  }

  // ------------------------------------------------------------------
  // The best slope
  // ------------------------------------------------------------------

  lemma ParabolaAlgebra(uu: real, uv: real, vv: real, a: real)
    ensures (uu - Times(a, uv)) - Times(a, uv - Times(a, vv)) == uu - Times(a + a, uv) + Times(Times(a, a), vv)
  {
    hide Times;
    Distribute(a, uv, Times(a, vv));
    Distribute(uv, a, a);
    Associate(a, a, vv);
  }

  /** The squared remainder as a parabola in the slope. */
  lemma Parabola(u: seq<real>, a: real, v: seq<real>)
    requires |u| == |v|
    ensures var w := Minus(u, a, v);
      Dot(w, w) == Dot(u, u) - Times(a + a, Dot(u, v)) + Times(Times(a, a), Dot(v, v))
  {
    hide Times, Dot, Minus;
    var w := Minus(u, a, v);
    DotMinus(u, a, v, w);
    DotCommutes(u, w);
    DotCommutes(v, w);
    DotMinus(u, a, v, u);
    DotMinus(u, a, v, v);
    DotCommutes(v, u);
    ParabolaAlgebra(Dot(u, u), Dot(u, v), Dot(v, v), a);
  }

  lemma ParabolaMinimum(uu: real, uv: real, vv: real, a: real, t: real)
    requires vv > 0.0 && t == Over(uv, vv)
    ensures uu - Times(t + t, uv) + Times(Times(t, t), vv) <= uu - Times(a + a, uv) + Times(Times(a, a), vv)
  {
    hide Times, Over;
    Quotient(t, vv, uv);
    SplitSquare(a, t, vv);
    Square(a - t);
    NonNegativeProduct(Times(a - t, a - t), vv);
  }

  /** `(a - t)^2 * v` written out, with `t * v` standing for the cross sum. */
  lemma SplitSquare(a: real, t: real, v: real)
    ensures Times(Times(a - t, a - t), v)
         == (Times(Times(a, a), v) - Times(a + a, Times(t, v))) - (Times(Times(t, t), v) - Times(t + t, Times(t, v)))
  {
    hide Times;
    ShiftSquare(a, t);
    Distribute(v, Times(a, a) - Times(t + t, a), Times(t, t));
    Distribute(v, Times(a, a), Times(t + t, a));
    DoubleProduct(t, a, v);
    DoubleProduct(t, t, v);
    DoubleProduct(a, t, v);
    Associate(t, a, v);
    Associate(a, t, v);
    Commute(t, a);
    Associate(t, t, v);
    Distribute(Times(t, v), a, a);
    Distribute(Times(t, v), t, t);
  }

  lemma DoubleProduct(x: real, y: real, v: real)
    ensures Times(Times(x + x, y), v) == Times(x, Times(y, v)) + Times(x, Times(y, v))
  {
    hide Times;
    Associate(x + x, y, v);
    Distribute(Times(y, v), x, x);
  }

  /** The spread the best line leaves is the share R squared does not explain. */
  lemma Unexplained(sxy: real, sxx: real, syy: real, rest: real)
    requires sxx != 0.0 && syy != 0.0
    requires Times(rest, sxx) == Times(syy, sxx) - Times(sxy, sxy)
    ensures rest == Times(syy, 1.0 - Score(sxy, sxx, syy))
  {
    hide Times, Over;
    NonZeroProduct(sxx, syy);
    var r2 := Score(sxy, sxx, syy);
    var z := Times(syy, 1.0 - r2);
    Quotient(r2, Times(sxx, syy), Times(sxy, sxy));
    Distribute(syy, 1.0, r2);
    Units(syy);
    Distribute(sxx, syy, Times(syy, r2));
    Commute(syy, r2);
    Associate(r2, syy, sxx);
    Commute(syy, sxx);
    assert Times(z, sxx) == Times(rest, sxx);
    Distribute(sxx, z, rest);
    if z != rest {
      NonZeroProduct(z - rest, sxx);
    }
  }

  function BestSlope(xs: seq<real>, ys: seq<real>): real
    requires |xs| == |ys| && Scorable(xs)
  {
    Over(Cross(ys, xs), Spread(xs))
  }

  function BestOffset(xs: seq<real>, ys: seq<real>): real
    requires |xs| == |ys| && Scorable(xs)
  {
    Mean(ys) - Times(BestSlope(xs, ys), Mean(xs))
  }

  lemma BestLeaves(xs: seq<real>, ys: seq<real>)
    requires |xs| == |ys| && Scorable(xs) && Scorable(ys)
    ensures PearsonR2(xs, ys).Ok?
    ensures var w := Minus(Centered(ys), BestSlope(xs, ys), Centered(xs));
      Dot(w, w) == Times(Spread(ys), 1.0 - PearsonR2(xs, ys).value)
  {
    hide Times, Over, Score;
    var w := Minus(Centered(ys), BestSlope(xs, ys), Centered(xs));
    Residual(Centered(ys), Centered(xs));
    DotCommutes(Centered(xs), Centered(ys));
    Unexplained(Cross(xs, ys), Spread(xs), Spread(ys), Dot(w, w));
  }

  /**
   * R squared is the coefficient of determination of the least-squares line: no line leaves less
   * than the share `1 - R2` of the spread of `ys`, and one line leaves exactly that.
   */
  lemma Determination(xs: seq<real>, ys: seq<real>, a: real, b: real)
    requires |xs| == |ys| && Scorable(xs) && Scorable(ys)
    ensures PearsonR2(xs, ys).Ok?
    ensures var rest := Times(Spread(ys), 1.0 - PearsonR2(xs, ys).value);
      && rest <= Sse(xs, ys, a, b)
      && Sse(xs, ys, BestSlope(xs, ys), BestOffset(xs, ys)) == rest
  {
    hide Times, Over, PearsonR2, Sse;
    var u, v, t := Centered(ys), Centered(xs), BestSlope(xs, ys);
    BestLeaves(xs, ys);
    OffsetCosts(xs, ys, a, b);
    OffsetCosts(xs, ys, t, BestOffset(xs, ys));
    Parabola(u, a, v);
    Parabola(u, t, v);
    DotSquare(v);
    ParabolaMinimum(Dot(u, u), Dot(u, v), Dot(v, v), a, t);
  }
}
