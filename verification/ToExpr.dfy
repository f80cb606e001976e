/** Reduction of a `toexpr` syntax tree to `raw * factor + offset`, over the reals. */
module ToExpr {
  // `Eval` gives an expression its meaning; `Simplify` is the reduction. `SimplifyExact` shows it
  // accepts exactly the expressions all of whose parts denote total affine functions of `x`.

  import opened Basics

  datatype UnaryOp = UAdd | USub | OtherUnary

  datatype BinaryOp = Add | Sub | Mult | Div | OtherBinary

  /** The nodes Python's parser can produce; `Opaque` is any node outside the accepted language. */
  datatype Expr =
    | Number(value: real)
    | NonNumber
    | Name(id: string)
    | Unary(uop: UnaryOp, operand: Expr)
    | Binary(bop: BinaryOp, left: Expr, right: Expr)
    | Opaque

  /** The value at `x`; undefined on division by zero and outside the accepted language. */
  function Eval(e: Expr, x: real): Option<real> {
    match e
    case Number(c) => Some(c)
    case Name(id) => if id == "x" then Some(x) else None
    case Unary(op, a) =>
      var v := Eval(a, x);
      if v.None? || op.OtherUnary? then None
      else if op.USub? then Some(-v.value) else v
    case Binary(op, a, b) =>
      var v, w := Eval(a, x), Eval(b, x);
      if v.None? || w.None? then None
      else Apply(op, v.value, w.value)
    case _ => None
  }

  function Apply(op: BinaryOp, v: real, w: real): Option<real> {
    match op
    case Add => Some(v + w)
    case Sub => Some(v - w)
    case Mult => Some(v * w)
    case Div => if w == 0.0 then None else Some(v / w)
    case OtherBinary => None
  }

  /** Factor and offset. */
  type Linear = (real, real)

  /** `_simplify`; `None` stands for the `_NonLinear` exception. */
  function Simplify(e: Expr): Option<Linear> {
    match e
    case Number(c) => Some((0.0, c))
    case Name(id) => if id == "x" then Some((1.0, 0.0)) else None
    case Unary(op, a) =>
      (match op
       case UAdd => Simplify(a)
       case USub => (match Simplify(a) case Some((f, o)) => Some((-f, -o)) case None => None)
       case OtherUnary => None)
    case Binary(op, a, b) =>
      var l, r := Simplify(a), Simplify(b);
      if l.None? || r.None? then None else Combine(op, l.value, r.value)
    case _ => None
  }

  function Combine(op: BinaryOp, l: Linear, r: Linear): Option<Linear> {
    match op
    case Add => Some((l.0 + r.0, l.1 + r.1))
    case Sub => Some((l.0 - r.0, l.1 - r.1))
    case Mult => if l.0 != 0.0 && r.0 != 0.0 then None else Some(Times(l, r))
    case Div => if r.0 != 0.0 || r.1 == 0.0 then None else Some(Over(l, r.1))
    case OtherBinary => None
  }

  function Times(l: Linear, r: Linear): Linear {
    (l.0 * r.1 + r.0 * l.1, l.1 * r.1)
  }

  function Over(l: Linear, c: real): Linear
    requires c != 0.0
  {
    (l.0 / c, l.1 / c)
  }

  // ------------------------------------------------------------------
  // Meaning
  // ------------------------------------------------------------------

  function At(l: Linear, x: real): real {
    l.0 * x + l.1
  }

  /** `e` is defined everywhere and equals `l.0 * x + l.1`. */
  ghost predicate Denotes(e: Expr, l: Linear) {
    forall x: real :: Eval(e, x) == Some(At(l, x))
  }

  ghost predicate Affine(e: Expr) {
    exists l: Linear :: Denotes(e, l)
  }

  /** `e` and every part of it denotes a total affine function. */
  ghost predicate AffineThroughout(e: Expr) {
    Affine(e) &&
    match e
    case Unary(_, a) => AffineThroughout(a)
    case Binary(_, a, b) => AffineThroughout(a) && AffineThroughout(b)
    case _ => true
  }

  /** Two affine functions that agree at 0 and at 1 are the same. */
  lemma LinearUnique(e: Expr, l: Linear, m: Linear)
    requires Denotes(e, l) && Denotes(e, m)
    ensures l == m
  {
    assert Eval(e, 0.0) == Some(At(l, 0.0)) == Some(At(m, 0.0));
    assert Eval(e, 1.0) == Some(At(l, 1.0)) == Some(At(m, 1.0));
  }

  lemma QuotientLinear(l: Linear, c: real, x: real)
    requires c != 0.0
    ensures At(l, x) / c == At(Over(l, c), x)
  {
    assert (l.0 / c) * x == l.0 * x / c;
  }

  lemma NegationLinear(l: Linear, x: real)
    ensures -At(l, x) == At((-l.0, -l.1), x)
  {
    assert (-l.0) * x == -(l.0 * x);
  }

  lemma SumLinear(l: Linear, r: Linear, x: real)
    ensures At(l, x) + At(r, x) == At((l.0 + r.0, l.1 + r.1), x)
    ensures At(l, x) - At(r, x) == At((l.0 - r.0, l.1 - r.1), x)
  {
    assert (l.0 + r.0) * x == l.0 * x + r.0 * x;
    assert (l.0 - r.0) * x == l.0 * x - r.0 * x;
  }

  lemma ProductLinear(l: Linear, r: Linear, x: real)
    requires l.0 == 0.0 || r.0 == 0.0
    ensures At(l, x) * At(r, x) == At(Times(l, r), x)
  {
    if l.0 == 0.0 {
      assert l.1 * (r.0 * x + r.1) == (r.0 * l.1) * x + l.1 * r.1;
    } else {
      assert (l.0 * x + l.1) * r.1 == (l.0 * r.1) * x + l.1 * r.1;
    }
  }

  /** Where the operands denote `l` and `r`, an accepted combination denotes the result. */
  lemma CombineSound(op: BinaryOp, l: Linear, r: Linear, x: real)
    requires Combine(op, l, r).Some?
    ensures Apply(op, At(l, x), At(r, x)) == Some(At(Combine(op, l, r).value, x))
  {
    var m := Combine(op, l, r).value;
    match op
    case Mult =>
      ProductLinear(l, r, x);
      ApplyMult(At(l, x), At(r, x), At(m, x));
    case Div =>
      assert r.0 * x == 0.0 * x == 0.0;
      QuotientLinear(l, r.1, x);
    case Add => SumLinear(l, r, x);
    case Sub => SumLinear(l, r, x);
  }

  lemma ApplyMult(v: real, w: real, p: real)
    requires v * w == p
    ensures Apply(Mult, v, w) == Some(p)
  {
  }

  /** A product of two non-constant affine functions has a quadratic term: no affine `m` fits it. */
  lemma ProductQuadratic(l: Linear, r: Linear, m: Linear) returns (x: real)
    requires l.0 != 0.0 && r.0 != 0.0
    ensures At(l, x) * At(r, x) != At(m, x)
  {
    var b, c := l.0 * r.1 + l.1 * r.0, l.1 * r.1;
    assert At(l, 0.0) == l.1 && At(r, 0.0) == r.1;
    assert At(l, 1.0) == l.0 + l.1 && At(r, 1.0) == r.0 + r.1;
    assert At(l, -1.0) == l.1 - l.0 && At(r, -1.0) == r.1 - r.0;
    assert (l.0 + l.1) * (r.0 + r.1) == l.0 * r.0 + b + c;
    assert (l.1 - l.0) * (r.1 - r.0) == l.0 * r.0 - b + c;
    assert At(m, 0.0) == m.1 && At(m, 1.0) == m.0 + m.1 && At(m, -1.0) == m.1 - m.0;
    assert l.0 * r.0 != 0.0;
    x := if c != m.1 then 0.0 else if At(l, 1.0) * At(r, 1.0) != At(m, 1.0) then 1.0 else -1.0;
  }

  /** An affine denominator that is not a non-zero constant vanishes somewhere. */
  lemma DenominatorVanishes(r: Linear) returns (x: real)
    requires r.0 != 0.0 || r.1 == 0.0
    ensures At(r, x) == 0.0
  {
    x := if r.0 == 0.0 then 0.0 else -r.1 / r.0;
    if r.0 != 0.0 {
      assert r.0 * (-r.1 / r.0) == -r.1;
    }
  }

  lemma UndefinedNotAffine(e: Expr, x: real)
    requires Eval(e, x) == None
    ensures !Affine(e)
  {
    forall l: Linear
      ensures !Denotes(e, l)
    {
      assert Eval(e, x) != Some(At(l, x));
    }
  }

  /** Every rejection by `Combine` is justified: no factor and offset describe the combination. */
  lemma RejectionJustified(op: BinaryOp, a: Expr, b: Expr, l: Linear, r: Linear)
    requires Denotes(a, l) && Denotes(b, r) && Combine(op, l, r).None?
    ensures !Affine(Binary(op, a, b))
  {
    var e := Binary(op, a, b);
    match op
    case Mult =>
      forall m: Linear
        ensures !Denotes(e, m)
      {
        var x := ProductQuadratic(l, r, m);
        assert Eval(a, x) == Some(At(l, x)) && Eval(b, x) == Some(At(r, x));
        assert Eval(e, x) != Some(At(m, x));
      }
    case Div =>
      var x := DenominatorVanishes(r);
      assert Eval(b, x) == Some(At(r, x));
      UndefinedNotAffine(e, x);
    case OtherBinary => UndefinedNotAffine(e, 0.0);
  }

  /** Meaning is preserved: an accepted expression is defined at every `x` and equals the result. */
  lemma {:induction false} SimplifySound(e: Expr)
    requires Simplify(e).Some?
    ensures Denotes(e, Simplify(e).value)
  {
    forall x: real
      ensures Eval(e, x) == Some(At(Simplify(e).value, x))
    {
      match e
      case Number(c) => assert 0.0 * x == 0.0;
      case Name(_) => assert 1.0 * x == x;
      case Unary(_, a) =>
        SimplifySound(a);
        var l := Simplify(a).value;
        assert Eval(a, x) == Some(At(l, x));
        NegationLinear(l, x);
      case Binary(op, a, b) =>
        SimplifySound(a);
        SimplifySound(b);
        assert Eval(a, x) == Some(At(Simplify(a).value, x)) && Eval(b, x) == Some(At(Simplify(b).value, x));
        CombineSound(op, Simplify(a).value, Simplify(b).value, x);
    }
  }

  /** Exactness: accepted exactly when the expression and all its parts are affine. */
  lemma {:induction false} SimplifyExact(e: Expr)
    ensures Simplify(e).Some? <==> AffineThroughout(e)
  {
    if Simplify(e).Some? {
      SimplifySound(e);
    }
    match e
    case Number(_) =>
    case Unary(op, a) =>
      SimplifyExact(a);
      if op.OtherUnary? {
        UndefinedNotAffine(e, 0.0);
      }
    case Binary(op, a, b) =>
      SimplifyExact(a);
      SimplifyExact(b);
      if Simplify(a).Some? && Simplify(b).Some? && Simplify(e).None? {
        SimplifySound(a);
        SimplifySound(b);
        RejectionJustified(op, a, b, Simplify(a).value, Simplify(b).value);
      }
    case _ =>
      if Simplify(e).None? {
        UndefinedNotAffine(e, 0.0);
      }
  }

  // ------------------------------------------------------------------
  // The whole attribute
  // ------------------------------------------------------------------

  /** The attribute after the text-level steps: missing, blank, marked, unparsable or parsed. */
  datatype Attribute = Missing | Blank | HardwareMarker | Unparsable | Parsed(tree: Expr)

  /** `parse_toexpr`. */
  function ParseToExpr(a: Attribute): Option<Linear> {
    match a
    case Missing => Some((1.0, 0.0))
    case Blank => Some((1.0, 0.0))
    case HardwareMarker => None
    case Unparsable => None
    case Parsed(tree) => Simplify(tree)
  }

  /**
   The one linear form an attribute can have, and when it has one: a missing or blank attribute
   leaves every value as it is, a parsed one means what its tree denotes, any other means nothing.
   */
  lemma ParsedExactly(a: Attribute, l: Linear)
    ensures ParseToExpr(a) == Some(l) <==>
      match a
      case Missing => forall x: real :: At(l, x) == x
      case Blank => forall x: real :: At(l, x) == x
      case HardwareMarker => false
      case Unparsable => false
      case Parsed(tree) => AffineThroughout(tree) && Denotes(tree, l)
  {
    if a.Parsed? {
      SimplifyExact(a.tree);
      if Simplify(a.tree).Some? {
        SimplifySound(a.tree);
        if Denotes(a.tree, l) {
          LinearUnique(a.tree, l, Simplify(a.tree).value);
        }
      }
    } else if forall x: real :: At(l, x) == x {
      assert At(l, 0.0) == 0.0 && At(l, 1.0) == 1.0;
    }
  }
}
