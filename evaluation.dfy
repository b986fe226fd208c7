/** Numeric evaluation of a tree at a value of the variable: each node's
    `operator()`, with every intermediate result a `double`. */
module Evaluation {
  import opened Numbers
  import opened Expressions

  /** The value of `e` when the variable is `x`. A scalar evaluates to zero
      whatever value it holds, as `scalar::operator()` does. Division is true
      division. */
  function Eval(e: Expr, x: Num): Num {
    match e
    case Const(n) => Fin(n as real)
    case Scalar(_) => Fin(0.0)
    case Var => x
    case Neg(a) => Negate(Eval(a, x))
    case Add(a, b) => Plus(Eval(a, x), Eval(b, x))
    case Sub(a, b) => Minus(Eval(a, x), Eval(b, x))
    case Mul(a, b) => Times(Eval(a, x), Eval(b, x))
    case Div(a, b) => Quotient(Eval(a, x), Eval(b, x))
  }

  /** The three leaves: a constant is its value, the variable is its argument
      and a scalar is zero. */
  lemma LeafValues(n: int, v: real, x: Num)
    ensures Eval(Const(n), x) == Fin(n as real)
    ensures Eval(Var, x) == x
    ensures Eval(Scalar(v), x) == Fin(0.0)
  {
  }

  /** A NaN operand makes its node NaN, so a node that is not NaN has no NaN
      child. */
  lemma NaNPropagates(e: Expr, x: Num)
    ensures e.Neg? && Eval(e.e, x) == NaN ==> Eval(e, x) == NaN
    ensures (e.Add? || e.Sub? || e.Mul? || e.Div?) && (Eval(e.l, x) == NaN || Eval(e.r, x) == NaN)
            ==> Eval(e, x) == NaN
  {
  }

  lemma MkNegPreservesValue(a: Expr, x: Num)
    ensures Eval(MkNeg(a), x) == Eval(Neg(a), x)
  {
  }

  /** Every `+` rule keeps the value, at every value of the variable and
      whatever the operands' values (including infinities and NaN). The
      constant-plus-scalar and scalar-plus-scalar rules are sound only because a
      scalar evaluates to zero. */
  lemma MkAddPreservesValue(a: Expr, b: Expr, x: Num)
    ensures Eval(MkAdd(a, b), x) == Eval(Add(a, b), x)
  {
    if a.Const? && b.Const? {
    } else if b == Const(0) {
      PlusZero(Eval(a, x));
    } else if a == Const(0) {
      ZeroPlus(Eval(b, x));
    }
  }

  lemma MkSubPreservesValue(a: Expr, b: Expr, x: Num)
    ensures Eval(MkSub(a, b), x) == Eval(Sub(a, b), x)
  {
    if a.Const? && b.Const? {
      ConstantDifference(a.n, b.n, x);
    } else if b == Const(0) {
      SubtractZero(a, x);
    } else if a == Const(0) {
      SubtractFromZero(b, x);
    } else if a.Scalar? && b.Scalar? {
      ScalarDifference(a.v, b.v, x);
    } else if a.Const? && b.Scalar? {
      SubtractScalar(a.n, b.v, x);
    } else {
      assert MkSub(a, b) == Sub(a, b);
    }
  }

  lemma SubtractZero(a: Expr, x: Num)
    requires !a.Const?
    ensures Eval(MkSub(a, Const(0)), x) == Eval(Sub(a, Const(0)), x)
  {
    MinusZero(Eval(a, x));
  }

  lemma SubtractFromZero(b: Expr, x: Num)
    requires !b.Const?
    ensures Eval(MkSub(Const(0), b), x) == Eval(Sub(Const(0), b), x)
  {
    assert MkSub(Const(0), b) == MkNeg(b);
    MkNegPreservesValue(b, x);
    assert Eval(MkNeg(b), x) == Negate(Eval(b, x));
    assert Eval(Sub(Const(0), b), x) == Plus(Fin(0.0), Negate(Eval(b, x)));
    ZeroPlus(Negate(Eval(b, x)));
  }

  lemma ScalarDifference(v: real, w: real, x: Num)
    ensures Eval(MkSub(Scalar(v), Scalar(w)), x) == Eval(Sub(Scalar(v), Scalar(w)), x)
  {
    assert Eval(MkSub(Scalar(v), Scalar(w)), x) == Fin(0.0);
    assert Eval(Sub(Scalar(v), Scalar(w)), x) == Fin(0.0);
  }

  lemma SubtractScalar(n: int, v: real, x: Num)
    requires n != 0
    ensures Eval(MkSub(Const(n), Scalar(v)), x) == Eval(Sub(Const(n), Scalar(v)), x)
  {
    MinusZero(Fin(n as real));
  }

  lemma ConstantDifference(m: int, n: int, x: Num)
    ensures Eval(MkSub(Const(m), Const(n)), x) == Eval(Sub(Const(m), Const(n)), x)
  {
    assert (m - n) as real == m as real + -(n as real);
  }

  /** The value of a folded product: the product of the operands' values,
      except that a zero factor beside a non-constant gives 0 whatever the
      other factor's value. */
  lemma MkMulValue(a: Expr, b: Expr, x: Num)
    ensures Eval(MkMul(a, b), x)
            == if !(a.Const? && b.Const?) && (a == Const(0) || b == Const(0)) then Fin(0.0)
               else Times(Eval(a, x), Eval(b, x))
  {
    if a.Const? && b.Const? {
      assert (a.n * b.n) as real == Product(a.n as real, b.n as real);
    }
  }

  /** The `*` rules keep every value except one: a zero factor folds the
      product to 0 even where the other factor is infinite or NaN, where the
      unfolded product is NaN. */
  lemma MkMulPreservesValue(a: Expr, b: Expr, x: Num)
    ensures Eval(MkMul(a, b), x) == Eval(Mul(a, b), x)
            || (Eval(Mul(a, b), x) == NaN && Eval(MkMul(a, b), x) == Fin(0.0))
    ensures Eval(Mul(a, b), x) != NaN ==> Eval(MkMul(a, b), x) == Eval(Mul(a, b), x)
  {
    MkMulValue(a, b, x);
  }

  /** On finite operand values the smart constructors compute the real sum,
      difference and product. */
  lemma MkNegFinite(a: Expr, x: Num, s: real)
    requires Eval(a, x) == Fin(s)
    ensures Eval(MkNeg(a), x) == Fin(-s)
  {
    MkNegPreservesValue(a, x);
    NegateFinite(Eval(a, x), s);
  }

  lemma MkAddFinite(a: Expr, b: Expr, x: Num, s: real, t: real)
    requires Eval(a, x) == Fin(s) && Eval(b, x) == Fin(t)
    ensures Eval(MkAdd(a, b), x) == Fin(s + t)
  {
    MkAddPreservesValue(a, b, x);
    PlusFinite(Eval(a, x), Eval(b, x), s, t);
  }

  lemma MkSubFinite(a: Expr, b: Expr, x: Num, s: real, t: real)
    requires Eval(a, x) == Fin(s) && Eval(b, x) == Fin(t)
    ensures Eval(MkSub(a, b), x) == Fin(s - t)
  {
    MkSubPreservesValue(a, b, x);
    MinusFinite(Eval(a, x), Eval(b, x), s, t);
  }

  lemma MkMulFinite(a: Expr, b: Expr, x: Num, s: real, t: real)
    requires Eval(a, x) == Fin(s) && Eval(b, x) == Fin(t)
    ensures Eval(MkMul(a, b), x) == Fin(Product(s, t))
  {
    MkMulValue(a, b, x);
    if !(a.Const? && b.Const?) && (a == Const(0) || b == Const(0)) {
      ProductWithZero(s, t);
    } else {
      TimesFinite(Eval(a, x), Eval(b, x), s, t);
    }
  }

  /** A tree written with the operators has the value of the tree as written,
      wherever that value is not NaN. */
  lemma {:induction false} BuildPreservesValue(e: Expr, x: Num)
    requires Eval(e, x) != NaN
    ensures Eval(Build(e), x) == Eval(e, x)
  {
    NaNPropagates(e, x);
    match e
    case Const(_) =>
    case Scalar(_) =>
    case Var =>
    case Neg(a) =>
      BuildPreservesValue(a, x);
      MkNegPreservesValue(Build(a), x);
    case Add(a, b) =>
      BuildPreservesValue(a, x);
      BuildPreservesValue(b, x);
      MkAddPreservesValue(Build(a), Build(b), x);
    case Sub(a, b) =>
      BuildPreservesValue(a, x);
      BuildPreservesValue(b, x);
      MkSubPreservesValue(Build(a), Build(b), x);
    case Mul(a, b) =>
      BuildPreservesValue(a, x);
      BuildPreservesValue(b, x);
      MkMulPreservesValue(Build(a), Build(b), x);
    case Div(a, b) =>
      BuildPreservesValue(a, x);
      BuildPreservesValue(b, x);
  }
}
