/** Products and quotients of reals, with the laws the proofs quote by name. */
module RealAlgebra {

  function Times(x: real, y: real): real {
    x * y
  }

  function Over(n: real, d: real): real
    requires d != 0.0
  {
    n / d
  }

  lemma Commute(x: real, y: real)
    ensures Times(x, y) == Times(y, x)
  {
  }

  lemma Associate(a: real, b: real, c: real)
    ensures Times(Times(a, b), c) == Times(a, Times(b, c))
  {
  }

  lemma Distribute(a: real, x: real, y: real)
    ensures Times(a, x + y) == Times(a, x) + Times(a, y)
    ensures Times(a, x - y) == Times(a, x) - Times(a, y)
    ensures Times(x + y, a) == Times(x, a) + Times(y, a)
    ensures Times(x - y, a) == Times(x, a) - Times(y, a)
  {
  }

  lemma Units(x: real)
    ensures Times(1.0, x) == Times(x, 1.0) == x
    ensures Times(0.0, x) == Times(x, 0.0) == 0.0
  {
  }

  lemma PositiveProduct(x: real, y: real)
    requires x > 0.0 && y > 0.0
    ensures Times(x, y) > 0.0
  {
  }

  lemma MixedProduct(x: real, y: real)
    requires x < 0.0 && y > 0.0
    ensures Times(x, y) < 0.0
  {
  }

  lemma NegativeProduct(x: real, y: real)
    requires x < 0.0 && y < 0.0
    ensures Times(x, y) > 0.0
  {
  }

  lemma NonZeroProduct(x: real, y: real)
    requires x != 0.0 && y != 0.0
    ensures Times(x, y) != 0.0
  {
    hide Times;
    if x > 0.0 && y > 0.0 {
      PositiveProduct(x, y);
    } else if x < 0.0 && y < 0.0 {
      NegativeProduct(x, y);
    } else if x < 0.0 {
      MixedProduct(x, y);
    } else {
      MixedProduct(y, x);
      Commute(x, y);
    }
  }

  lemma Square(x: real)
    ensures Times(x, x) >= 0.0
    ensures Times(x, x) == 0.0 <==> x == 0.0
  {
    hide Times;
    if x > 0.0 {
      PositiveProduct(x, x);
    } else if x < 0.0 {
      NegativeProduct(x, x);
    } else {
      Units(x);
    }
  }

  /** `Over(n, d)` is the only `q` with `q * d == n`. */
  lemma Quotient(q: real, d: real, n: real)
    requires d != 0.0
    ensures Over(n, d) == q <==> Times(q, d) == n
  {
  }

  lemma Fraction(n: real, d: real)
    requires 0.0 <= n <= d && d > 0.0
    ensures 0.0 <= Over(n, d) <= 1.0
    ensures Over(n, d) == 1.0 <==> n == d
  {
    hide Times, Over;
    var q := Over(n, d);
    Quotient(q, d, n);
    Quotient(1.0, d, n);
    Units(d);
    if q < 0.0 {
      MixedProduct(q, d);
    }
    if q > 1.0 {
      PositiveProduct(q - 1.0, d);
      Distribute(d, q, 1.0);
    }
  }

  /** Scaling both parts of a fraction leaves it alone. */
  lemma Cancel(a: real, n: real, d: real)
    requires a != 0.0 && d != 0.0
    ensures Times(a, d) != 0.0
    ensures Over(Times(a, n), Times(a, d)) == Over(n, d)
  {
    hide Times, Over;
    NonZeroProduct(a, d);
    var q := Over(n, d);
    Quotient(q, d, n);
    Associate(q, a, d);
    Commute(q, a);
    Associate(a, q, d);
    Quotient(q, Times(a, d), Times(a, n));
  }
}
