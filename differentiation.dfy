/** Symbolic differentiation: each node's `diff()`, which builds the
    derivative through the folding operators. */
module Differentiation {
  import opened Numbers
  import opened Expressions
  import opened Evaluation

  /** The derivative of `e` with respect to the variable. Leaves differentiate
      to constants; negation, sum and difference are differentiated term by
      term; products follow the product rule `l'*r + r'*l` and quotients the
      quotient rule `(l'*r - r'*l) / (r*r)`, every node built by its smart
      constructor. */
  function Diff(e: Expr): Expr {
    match e
    case Const(_) => Const(0)
    case Scalar(_) => Const(0)
    case Var => Const(1)
    case Neg(a) => MkNeg(Diff(a))
    case Add(a, b) => MkAdd(Diff(a), Diff(b))
    case Sub(a, b) => MkSub(Diff(a), Diff(b))
    case Mul(a, b) => MkAdd(MkMul(Diff(a), b), MkMul(Diff(b), a))
    case Div(a, b) => MkDiv(MkSub(MkMul(Diff(a), b), MkMul(Diff(b), a)), MkMul(b, b))
  }

  /** Constants and scalars differentiate to 0, the variable to 1. */
  lemma DiffLeaves(n: int, v: real)
    ensures Diff(Const(n)) == Const(0)
    ensures Diff(Scalar(v)) == Const(0)
    ensures Diff(Var) == Const(1)
  {
  }

  /** Whatever tree a client writes with the operators, its derivative has no
      foldable node. */
  lemma DiffOfBuiltIsSimplified(e: Expr)
    ensures Simplified(Diff(Build(e)))
  {
    BuildSimplifies(e);
    DiffKeepsSimplified(Build(e));
  }

  /** A tree without foldable nodes has a derivative without foldable
      nodes. */
  lemma {:induction false} DiffKeepsSimplified(e: Expr)
    requires Simplified(e)
    ensures Simplified(Diff(e))
  {
    match e
    case Const(_) =>
    case Scalar(_) =>
    case Var =>
    case Neg(a) =>
      DiffKeepsSimplified(a);
      MkNegFolds(Diff(a));
    case Add(a, b) =>
      DiffKeepsSimplified(a);
      DiffKeepsSimplified(b);
      MkAddFolds(Diff(a), Diff(b));
    case Sub(a, b) =>
      DiffKeepsSimplified(a);
      DiffKeepsSimplified(b);
      MkSubFolds(Diff(a), Diff(b));
    case Mul(a, b) =>
      DiffKeepsSimplified(a);
      DiffKeepsSimplified(b);
      MkMulFolds(Diff(a), b);
      MkMulFolds(Diff(b), a);
      MkAddFolds(MkMul(Diff(a), b), MkMul(Diff(b), a));
    case Div(a, b) =>
      DiffKeepsSimplified(a);
      DiffKeepsSimplified(b);
      MkMulFolds(Diff(a), b);
      MkMulFolds(Diff(b), a);
      MkSubFolds(MkMul(Diff(a), b), MkMul(Diff(b), a));
      MkMulFolds(b, b);
      MkDivKeepsSimplified(MkSub(MkMul(Diff(a), b), MkMul(Diff(b), a)), MkMul(b, b));
  }

  /** The product rule on `x*x`: with no rule for a factor of one the
      derivative is `1*x + 1*x`, which evaluates to `2x`. */
  lemma DiffSquare(x: real)
    ensures Diff(Mul(Var, Var)) == Add(Mul(Const(1), Var), Mul(Const(1), Var))
    ensures Eval(Diff(Mul(Var, Var)), Fin(x)) == Fin(2.0 * x)
  {
    assert Diff(Var) == Const(1);
    assert MkMul(Const(1), Var) == Mul(Const(1), Var);
    assert Eval(Mul(Const(1), Var), Fin(x)) == Fin(x);
  }

  /** The expression `x*x + x` solved by the program's entry point, and its
      derivative `(1*x + 1*x) + 1`. */
  lemma DiffOfSquarePlusVariable()
    ensures Build(Add(Mul(Var, Var), Var)) == Add(Mul(Var, Var), Var)
    ensures Diff(Add(Mul(Var, Var), Var)) == Add(Add(Mul(Const(1), Var), Mul(Const(1), Var)), Const(1))
  {
  }

  // Forward-mode differentiation, the reference for Diff

  datatype Option<T> = None | Some(value: T)

  /** A value and its slope (a dual number `value + slope * epsilon`). */
  datatype Dual = Dual(value: real, slope: real)

  /** Dual-number evaluation of `e` at `x`: the value of `e` and of its
      derivative, computed together bottom-up without building a tree. None
      when a denominator is zero. */
  function Forward(e: Expr, x: real): Option<Dual> {
    match e
    case Const(n) => Some(Dual(n as real, 0.0))
    case Scalar(_) => Some(Dual(0.0, 0.0))
    case Var => Some(Dual(x, 1.0))
    case Neg(a) =>
      var p := Forward(a, x);
      if p.None? then None else Some(Dual(-p.value.value, -p.value.slope))
    case Add(a, b) =>
      var p, q := Forward(a, x), Forward(b, x);
      if p.None? || q.None? then None
      else Some(Dual(p.value.value + q.value.value, p.value.slope + q.value.slope))
    case Sub(a, b) =>
      var p, q := Forward(a, x), Forward(b, x);
      if p.None? || q.None? then None
      else Some(Dual(p.value.value - q.value.value, p.value.slope - q.value.slope))
    case Mul(a, b) =>
      var p, q := Forward(a, x), Forward(b, x);
      if p.None? || q.None? then None
      else Some(ProductDual(p.value, q.value))
    case Div(a, b) =>
      var p, q := Forward(a, x), Forward(b, x);
      if p.None? || q.None? || q.value.value == 0.0 then None
      else Some(QuotientDual(p.value, q.value))
  }

  /** `(u + u'e) * (v + v'e) = uv + (u'v + v'u)e` */
  function ProductDual(p: Dual, q: Dual): Dual {
    Dual(Product(p.value, q.value), Product(p.slope, q.value) + Product(q.slope, p.value))
  }

  /** `(u + u'e) / (v + v'e) = u/v + ((u'v - v'u) / v^2)e` */
  function QuotientDual(p: Dual, q: Dual): Dual
    requires q.value != 0.0
  {
    ProductNonzero(q.value, q.value);
    Dual(p.value / q.value, (Product(p.slope, q.value) - Product(q.slope, p.value)) / Product(q.value, q.value))
  }

  /** Wherever forward-mode evaluation is defined, the tree evaluates to its
      value. */
  lemma {:induction false} EvalAgreesWithForward(e: Expr, x: real)
    requires Forward(e, x).Some?
    ensures Eval(e, Fin(x)) == Fin(Forward(e, x).value.value)
  {
    match e
    case Const(_) =>
    case Scalar(_) =>
    case Var =>
    case Neg(a) =>
      EvalAgreesWithForward(a, x);
      ForwardNeg(a, Forward(a, x).value, x);
    case Add(a, b) =>
      EvalAgreesWithForward(a, x);
      EvalAgreesWithForward(b, x);
      ForwardAdd(a, b, Forward(a, x).value, Forward(b, x).value, x);
    case Sub(a, b) =>
      EvalAgreesWithForward(a, x);
      EvalAgreesWithForward(b, x);
      ForwardSub(a, b, Forward(a, x).value, Forward(b, x).value, x);
    case Mul(a, b) =>
      EvalAgreesWithForward(a, x);
      EvalAgreesWithForward(b, x);
      var p, q := Forward(a, x).value, Forward(b, x).value;
      ForwardMul(a, b, p, q, x);
      ProductValue(a, b, p, q, Fin(x));
    case Div(a, b) =>
      EvalAgreesWithForward(a, x);
      EvalAgreesWithForward(b, x);
      var p, q := Forward(a, x).value, Forward(b, x).value;
      ForwardDiv(a, b, p, q, x);
      QuotientValue(a, b, p, q, Fin(x));
  }

  /** Wherever forward-mode evaluation is defined, the symbolic derivative
      evaluates to its slope: folding inside Diff never changes the
      derivative's value. */
  lemma {:induction false} DiffAgreesWithForward(e: Expr, x: real)
    requires Forward(e, x).Some?
    ensures Eval(Diff(e), Fin(x)) == Fin(Forward(e, x).value.slope)
  {
    match e
    case Const(_) =>
    case Scalar(_) =>
    case Var =>
    case Neg(a) =>
      DiffAgreesWithForward(a, x);
      var p := Forward(a, x).value;
      ForwardNeg(a, p, x);
      MkNegFinite(Diff(a), Fin(x), p.slope);
    case Add(a, b) =>
      DiffAgreesWithForward(a, x);
      DiffAgreesWithForward(b, x);
      var p, q := Forward(a, x).value, Forward(b, x).value;
      ForwardAdd(a, b, p, q, x);
      MkAddFinite(Diff(a), Diff(b), Fin(x), p.slope, q.slope);
    case Sub(a, b) =>
      DiffAgreesWithForward(a, x);
      DiffAgreesWithForward(b, x);
      var p, q := Forward(a, x).value, Forward(b, x).value;
      ForwardSub(a, b, p, q, x);
      MkSubFinite(Diff(a), Diff(b), Fin(x), p.slope, q.slope);
    case Mul(a, b) =>
      DiffAgreesWithForward(a, x);
      DiffAgreesWithForward(b, x);
      EvalAgreesWithForward(a, x);
      EvalAgreesWithForward(b, x);
      var p, q := Forward(a, x).value, Forward(b, x).value;
      ForwardMul(a, b, p, q, x);
      ProductRuleValue(a, b, Diff(a), Diff(b), p, q, Fin(x));
    case Div(a, b) =>
      DiffAgreesWithForward(a, x);
      DiffAgreesWithForward(b, x);
      EvalAgreesWithForward(a, x);
      EvalAgreesWithForward(b, x);
      var p, q := Forward(a, x).value, Forward(b, x).value;
      ForwardDiv(a, b, p, q, x);
      QuotientRuleValue(a, b, Diff(a), Diff(b), p, q, Fin(x));
  }

  // One step of forward evaluation for each operator

  lemma ForwardNeg(a: Expr, p: Dual, x: real)
    requires Forward(a, x) == Some(p)
    ensures Forward(Neg(a), x) == Some(Dual(-p.value, -p.slope))
  {
  }

  lemma ForwardAdd(a: Expr, b: Expr, p: Dual, q: Dual, x: real)
    requires Forward(a, x) == Some(p) && Forward(b, x) == Some(q)
    ensures Forward(Add(a, b), x) == Some(Dual(p.value + q.value, p.slope + q.slope))
  {
  }

  lemma ForwardSub(a: Expr, b: Expr, p: Dual, q: Dual, x: real)
    requires Forward(a, x) == Some(p) && Forward(b, x) == Some(q)
    ensures Forward(Sub(a, b), x) == Some(Dual(p.value - q.value, p.slope - q.slope))
  {
  }

  lemma ForwardMul(a: Expr, b: Expr, p: Dual, q: Dual, x: real)
    requires Forward(a, x) == Some(p) && Forward(b, x) == Some(q)
    ensures Forward(Mul(a, b), x) == Some(ProductDual(p, q))
  {
  }

  lemma ForwardDiv(a: Expr, b: Expr, p: Dual, q: Dual, x: real)
    requires Forward(a, x) == Some(p) && Forward(b, x) == Some(q)
    requires Forward(Div(a, b), x).Some?
    ensures q.value != 0.0
    ensures Forward(Div(a, b), x) == Some(QuotientDual(p, q))
  {
  }

  // The value of each operator node, and of the derivative tree built for it

  lemma ProductValue(a: Expr, b: Expr, p: Dual, q: Dual, x: Num)
    requires Eval(a, x) == Fin(p.value) && Eval(b, x) == Fin(q.value)
    ensures Eval(Mul(a, b), x) == Fin(ProductDual(p, q).value)
  {
    TimesFinite(Eval(a, x), Eval(b, x), p.value, q.value);
  }

  lemma QuotientValue(a: Expr, b: Expr, p: Dual, q: Dual, x: Num)
    requires Eval(a, x) == Fin(p.value) && Eval(b, x) == Fin(q.value)
    requires q.value != 0.0
    ensures Eval(Div(a, b), x) == Fin(QuotientDual(p, q).value)
  {
    QuotientFinite(p.value, q.value);
  }

  /** The product rule's tree `l'*r + r'*l` evaluates to the slope of the
      dual-number product. */
  lemma ProductRuleValue(a: Expr, b: Expr, da: Expr, db: Expr, p: Dual, q: Dual, x: Num)
    requires Eval(a, x) == Fin(p.value) && Eval(da, x) == Fin(p.slope)
    requires Eval(b, x) == Fin(q.value) && Eval(db, x) == Fin(q.slope)
    ensures Eval(MkAdd(MkMul(da, b), MkMul(db, a)), x) == Fin(ProductDual(p, q).slope)
  {
    MkMulFinite(da, b, x, p.slope, q.value);
    MkMulFinite(db, a, x, q.slope, p.value);
    ProductSlopeValue(MkMul(da, b), MkMul(db, a), p, q, x);
  }

  /** Terms of values `l'r` and `r'l` add up to the slope of the dual-number
      product. */
  lemma ProductSlopeValue(t1: Expr, t2: Expr, p: Dual, q: Dual, x: Num)
    requires Eval(t1, x) == Fin(Product(p.slope, q.value))
    requires Eval(t2, x) == Fin(Product(q.slope, p.value))
    ensures Eval(MkAdd(t1, t2), x) == Fin(ProductDual(p, q).slope)
  {
    MkAddFinite(t1, t2, x, Product(p.slope, q.value), Product(q.slope, p.value));
  }

  /** The two products of the product and quotient rules. */
  lemma TermsFinite(u: Expr, v: Expr, w: Expr, z: Expr, x: Num, s: real, t: real, m: real, n: real)
    requires Eval(u, x) == Fin(s) && Eval(v, x) == Fin(t)
    requires Eval(w, x) == Fin(m) && Eval(z, x) == Fin(n)
    ensures Eval(MkMul(u, v), x) == Fin(Product(s, t))
    ensures Eval(MkMul(w, z), x) == Fin(Product(m, n))
  {
    MkMulFinite(u, v, x, s, t);
    MkMulFinite(w, z, x, m, n);
  }

  /** The quotient rule's tree `(l'*r - r'*l) / (r*r)` evaluates to the slope
      of the dual-number quotient where `r` is nonzero. */
  lemma QuotientRuleValue(a: Expr, b: Expr, da: Expr, db: Expr, p: Dual, q: Dual, x: Num)
    requires Eval(a, x) == Fin(p.value) && Eval(da, x) == Fin(p.slope)
    requires Eval(b, x) == Fin(q.value) && Eval(db, x) == Fin(q.slope)
    requires q.value != 0.0
    ensures Eval(MkDiv(MkSub(MkMul(da, b), MkMul(db, a)), MkMul(b, b)), x)
            == Fin(QuotientDual(p, q).slope)
  {
    TermsFinite(da, b, db, a, x, p.slope, q.value, q.slope, p.value);
    MkSubFinite(MkMul(da, b), MkMul(db, a), x, Product(p.slope, q.value), Product(q.slope, p.value));
    MkMulFinite(b, b, x, q.value, q.value);
    QuotientStep(MkSub(MkMul(da, b), MkMul(db, a)), MkMul(b, b), p, q, x);
  }

  /** Dividing the numerator's value by the square of the denominator's
      value gives the slope of the dual-number quotient. */
  lemma QuotientStep(n: Expr, d: Expr, p: Dual, q: Dual, x: Num)
    requires q.value != 0.0
    requires Eval(n, x) == Fin(Product(p.slope, q.value) - Product(q.slope, p.value))
    requires Eval(d, x) == Fin(Product(q.value, q.value))
    ensures Eval(MkDiv(n, d), x) == Fin(QuotientDual(p, q).slope)
  {
    QuotientSlope(p, q);
    assert Eval(MkDiv(n, d), x) == Quotient(Eval(n, x), Eval(d, x));
  }

  lemma QuotientSlope(p: Dual, q: Dual)
    requires q.value != 0.0
    ensures Quotient(Fin(Product(p.slope, q.value) - Product(q.slope, p.value)), Fin(Product(q.value, q.value)))
            == Fin(QuotientDual(p, q).slope)
  {
    QuotientBySquare(Product(p.slope, q.value) - Product(q.slope, p.value), q.value);
  }

  // Repeated differentiation of a polynomial reaches Const(0)

  predicate DivisionFree(e: Expr) {
    match e
    case Const(_) => true
    case Scalar(_) => true
    case Var => true
    case Neg(a) => DivisionFree(a)
    case Add(a, b) => DivisionFree(a) && DivisionFree(b)
    case Sub(a, b) => DivisionFree(a) && DivisionFree(b)
    case Mul(a, b) => DivisionFree(a) && DivisionFree(b)
    case Div(_, _) => false
  }

  function Max(a: nat, b: nat): nat {
    if a < b then b else a
  }

  /** An upper bound on the polynomial degree of a division-free tree. */
  function Degree(e: Expr): nat {
    match e
    case Const(_) => 0
    case Scalar(_) => 0
    case Var => 1
    case Neg(a) => Degree(a)
    case Add(a, b) => Max(Degree(a), Degree(b))
    case Sub(a, b) => Max(Degree(a), Degree(b))
    case Mul(a, b) => Degree(a) + Degree(b)
    case Div(a, b) => Degree(a) + Degree(b)
  }

  /** The folding constructors never raise the degree nor introduce a
      division. */
  lemma NegDegree(a: Expr)
    ensures Degree(MkNeg(a)) == Degree(a)
    ensures DivisionFree(a) ==> DivisionFree(MkNeg(a))
  {
  }

  lemma SumDegree(a: Expr, b: Expr)
    ensures Degree(MkAdd(a, b)) <= Max(Degree(a), Degree(b))
    ensures DivisionFree(a) && DivisionFree(b) ==> DivisionFree(MkAdd(a, b))
  {
  }

  lemma DifferenceDegree(a: Expr, b: Expr)
    ensures Degree(MkSub(a, b)) <= Max(Degree(a), Degree(b))
    ensures DivisionFree(a) && DivisionFree(b) ==> DivisionFree(MkSub(a, b))
  {
    if !(a.Const? && b.Const?) && b != Const(0) && a == Const(0) {
      assert MkSub(a, b) == MkNeg(b);
      NegDegree(b);
    }
  }

  lemma ProductDegree(a: Expr, b: Expr)
    ensures Degree(MkMul(a, b)) <= Degree(a) + Degree(b)
    ensures DivisionFree(a) && DivisionFree(b) ==> DivisionFree(MkMul(a, b))
  {
  }

  /** `d` can stand for the derivative of `e` as far as degrees go: it is
      division-free, it is exactly 0 when `e` has degree 0, and otherwise
      has a lower degree than `e`. */
  predicate Lowers(e: Expr, d: Expr) {
    && DivisionFree(d)
    && (Degree(e) == 0 ==> d == Const(0))
    && (Degree(e) > 0 ==> Degree(d) < Degree(e))
  }

  /** Differentiating a division-free tree of degree 0 gives exactly
      Const(0); of a higher degree, a division-free tree of lower degree. */
  lemma {:induction false} DiffLowersDegree(e: Expr)
    requires DivisionFree(e)
    ensures Lowers(e, Diff(e))
  {
    match e
    case Const(_) =>
    case Scalar(_) =>
    case Var =>
    case Neg(a) =>
      DiffLowersDegree(a);
      NegLowers(a, Diff(a));
    case Add(a, b) =>
      DiffLowersDegree(a);
      DiffLowersDegree(b);
      SumLowers(a, b, Diff(a), Diff(b));
    case Sub(a, b) =>
      DiffLowersDegree(a);
      DiffLowersDegree(b);
      DifferenceLowers(a, b, Diff(a), Diff(b));
    case Mul(a, b) =>
      DiffLowersDegree(a);
      DiffLowersDegree(b);
      ProductLowers(a, b, Diff(a), Diff(b));
  }

  lemma NegLowers(a: Expr, da: Expr)
    requires Lowers(a, da)
    ensures Lowers(Neg(a), MkNeg(da))
  {
    NegDegree(da);
  }

  lemma SumLowers(a: Expr, b: Expr, da: Expr, db: Expr)
    requires Lowers(a, da) && Lowers(b, db)
    ensures Lowers(Add(a, b), MkAdd(da, db))
  {
    SumDegree(da, db);
  }

  lemma DifferenceLowers(a: Expr, b: Expr, da: Expr, db: Expr)
    requires Lowers(a, da) && Lowers(b, db)
    ensures Lowers(Sub(a, b), MkSub(da, db))
  {
    DifferenceDegree(da, db);
  }

  /** The product rule `a'*b + b'*a` lowers the degree: a factor of degree 0
      has derivative 0, which folds its term away. */
  lemma ProductLowers(a: Expr, b: Expr, da: Expr, db: Expr)
    requires DivisionFree(a) && DivisionFree(b)
    requires Lowers(a, da) && Lowers(b, db)
    ensures Lowers(Mul(a, b), MkAdd(MkMul(da, b), MkMul(db, a)))
  {
    TermLowers(a, b, da);
    TermLowers(b, a, db);
    SumOfTerms(a, b, MkMul(da, b), MkMul(db, a));
  }

  /** Two division-free terms, each zero or below the degree of the product
      `a*b` they come from, add up to a derivative that lowers the product. */
  lemma SumOfTerms(a: Expr, b: Expr, t1: Expr, t2: Expr)
    requires DivisionFree(t1) && DivisionFree(t2)
    requires Degree(a) == 0 ==> t1 == Const(0)
    requires Degree(b) == 0 ==> t2 == Const(0)
    requires Degree(a) > 0 ==> Degree(t1) < Degree(a) + Degree(b)
    requires Degree(b) > 0 ==> Degree(t2) < Degree(a) + Degree(b)
    ensures Lowers(Mul(a, b), MkAdd(t1, t2))
  {
    SumDegree(t1, t2);
  }

  /** One term `a'*b` of the product rule. */
  lemma TermLowers(a: Expr, b: Expr, da: Expr)
    requires DivisionFree(b) && Lowers(a, da)
    ensures DivisionFree(MkMul(da, b))
    ensures Degree(a) == 0 ==> MkMul(da, b) == Const(0)
    ensures Degree(a) > 0 ==> Degree(MkMul(da, b)) < Degree(a) + Degree(b)
  {
    ProductDegree(da, b);
  }

  /** The `k`-th derivative. */
  function DiffN(e: Expr, k: nat): Expr
    decreases k
  {
    if k == 0 then e else DiffN(Diff(e), k - 1)
  }

  /** Differentiating a division-free tree more times than its degree gives
      Const(0), the fixed point of Diff. */
  lemma {:induction false} RepeatedDiffVanishes(e: Expr, k: nat)
    requires DivisionFree(e)
    requires k > Degree(e)
    ensures DiffN(e, k) == Const(0)
    decreases k
  {
    DiffLowersDegree(e);
    if Degree(e) == 0 {
      ConstZeroIsFixed(k - 1);
    } else {
      RepeatedDiffVanishes(Diff(e), k - 1);
    }
  }

  lemma {:induction false} ConstZeroIsFixed(k: nat)
    ensures DiffN(Const(0), k) == Const(0)
  {
    if k > 0 {
      ConstZeroIsFixed(k - 1);
    }
  }
}
