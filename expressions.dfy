/** Expression trees and the folding smart constructors that the overloaded
    operators `-`, `+`, `*` and `/` of simvolic_diff.hpp implement. */
module Expressions {

  /** One node of an expression tree: `int_constant<N>`, `scalar<VT>`,
      `variable`, `negate_expression`, `additive_expression` with `+`/`-` and
      `multy_expression` with `*`/`/`. */
  datatype Expr =
    | Const(n: int)
    | Scalar(v: real)
    | Var
    | Neg(e: Expr)
    | Add(l: Expr, r: Expr)
    | Sub(l: Expr, r: Expr)
    | Mul(l: Expr, r: Expr)
    | Div(l: Expr, r: Expr)

  function Size(e: Expr): nat {
    match e
    case Const(_) => 1
    case Scalar(_) => 1
    case Var => 1
    case Neg(a) => 1 + Size(a)
    case Add(a, b) => 1 + Size(a) + Size(b)
    case Sub(a, b) => 1 + Size(a) + Size(b)
    case Mul(a, b) => 1 + Size(a) + Size(b)
    case Div(a, b) => 1 + Size(a) + Size(b)
  }

  /** No `+`/`-` folding rule applies to these operands. */
  predicate AdditiveFolded(a: Expr, b: Expr) {
    && !(a.Const? && (b.Const? || b.Scalar?))
    && !(a.Scalar? && b.Scalar?)
    && a != Const(0)
    && b != Const(0)
  }

  /** No folding rule of the simplifier applies at the root of `e`. */
  predicate Folded(e: Expr) {
    match e
    case Neg(a) => !a.Const? && !a.Scalar?
    case Add(a, b) => AdditiveFolded(a, b)
    case Sub(a, b) => AdditiveFolded(a, b)
    case Mul(a, b) => !(a.Const? && b.Const?) && a != Const(0) && b != Const(0)
    case _ => true
  }

  /** No folding rule applies anywhere in `e`. */
  predicate Simplified(e: Expr) {
    Folded(e) &&
    match e
    case Neg(a) => Simplified(a)
    case Add(a, b) => Simplified(a) && Simplified(b)
    case Sub(a, b) => Simplified(a) && Simplified(b)
    case Mul(a, b) => Simplified(a) && Simplified(b)
    case Div(a, b) => Simplified(a) && Simplified(b)
    case _ => true
  }

  /** Unary `operator-`: a constant or a scalar is negated in place, anything
      else is wrapped in a negation. There is no rule for a double negation. */
  function MkNeg(a: Expr): Expr
  {
    match a
    case Const(n) => Const(-n)
    case Scalar(v) => Scalar(-v)
    case _ => Neg(a)
  }

  /** Binary `operator+`: folds two constants, drops a zero operand on
      either side, adds two scalars, and keeps only the constant of a
      constant-plus-scalar sum (the last rule is the one the result-type table
      `additive_expression_type` states). */
  function MkAdd(a: Expr, b: Expr): Expr
  {
    if a.Const? && b.Const? then Const(a.n + b.n)
    else if b == Const(0) then a
    else if a == Const(0) then b
    else if a.Scalar? && b.Scalar? then Scalar(a.v + b.v)
    else if a.Const? && b.Scalar? then a
    else Add(a, b)
  }

  /** Binary `operator-`, with the rules of `+` and `0 - e` becoming `-e`.
      The source's `0 - int_constant<N2>` is declared to return
      `int_constant<N2>` while building `int_constant<-N2>`, and its `0 - e`
      hands `-e` back through a reference of the operand's type; both are
      modelled by what they evidently mean, `Const(-N2)` and `MkNeg(e)`. */
  function MkSub(a: Expr, b: Expr): Expr
  {
    if a.Const? && b.Const? then Const(a.n - b.n)
    else if b == Const(0) then a
    else if a == Const(0) then MkNeg(b)
    else if a.Scalar? && b.Scalar? then Scalar(a.v - b.v)
    else if a.Const? && b.Scalar? then a
    else Sub(a, b)
  }

  /** Binary `operator*`: folds two constants and a zero factor on either
      side; there is no rule for a factor of one. The source's `e * 0` and
      `0 * e` return a reference to a temporary `int_constant<0>`; the model
      returns the constant itself. */
  function MkMul(a: Expr, b: Expr): Expr
  {
    if a.Const? && b.Const? then Const(a.n * b.n)
    else if a == Const(0) || b == Const(0) then Const(0)
    else Mul(a, b)
  }

  /** Binary `operator/`. The source builds an `additive_expression` tagged
      `'/'`, which has neither an evaluation nor a derivative; the model builds
      the division node the quotient rule expects. Division is never folded. */
  function MkDiv(a: Expr, b: Expr): Expr
  {
    Div(a, b)
  }

  /** The tree a client obtains by writing `e` with the overloaded operators:
      every operator application goes through its smart constructor. */
  function Build(e: Expr): Expr {
    match e
    case Const(_) => e
    case Scalar(_) => e
    case Var => e
    case Neg(a) => MkNeg(Build(a))
    case Add(a, b) => MkAdd(Build(a), Build(b))
    case Sub(a, b) => MkSub(Build(a), Build(b))
    case Mul(a, b) => MkMul(Build(a), Build(b))
    case Div(a, b) => MkDiv(Build(a), Build(b))
  }

  /** Unary minus negates a constant or a scalar in place and keeps a double
      negation. */
  lemma NegationFolding(a: Expr, n: int, v: real)
    ensures MkNeg(Const(n)) == Const(-n)
    ensures MkNeg(Scalar(v)) == Scalar(-v)
    ensures MkNeg(Neg(a)) == Neg(Neg(a))
  {
  }

  /** Two constants fold into their sum and difference, and so do two
      scalars. */
  lemma AdditiveFolding(m: int, n: int, v: real, w: real)
    ensures MkAdd(Const(m), Const(n)) == Const(m + n)
    ensures MkSub(Const(m), Const(n)) == Const(m - n)
    ensures MkAdd(Scalar(v), Scalar(w)) == Scalar(v + w)
    ensures MkSub(Scalar(v), Scalar(w)) == Scalar(v - w)
  {
  }

  /** A nonzero constant absorbs a scalar added to it or subtracted from
      it. */
  lemma ConstantAbsorbsScalar(n: int, v: real)
    requires n != 0
    ensures MkAdd(Const(n), Scalar(v)) == Const(n)
    ensures MkSub(Const(n), Scalar(v)) == Const(n)
  {
  }

  /** A zero operand disappears from a sum or a difference, whatever the
      other operand, and `0 - e` is `-e`. */
  lemma AdditiveZero(e: Expr)
    ensures MkAdd(e, Const(0)) == e && MkAdd(Const(0), e) == e
    ensures MkSub(e, Const(0)) == e
    ensures MkSub(Const(0), e) == MkNeg(e)
  {
  }

  /** Two constants fold into their product and a zero factor makes the
      product zero; a factor of one stays. */
  lemma ProductFolding(m: int, n: int, e: Expr)
    ensures MkMul(Const(m), Const(n)) == Const(m * n)
    ensures MkMul(e, Const(0)) == Const(0) && MkMul(Const(0), e) == Const(0)
    ensures !e.Const? ==> MkMul(Const(1), e) == Mul(Const(1), e) && MkMul(e, Const(1)) == Mul(e, Const(1))
  {
  }

  // What each folding constructor guarantees: it never grows the tree, it
  // builds the plain node exactly when no rule applies, and it keeps a tree
  // without foldable nodes free of them.

  lemma MkNegFolds(a: Expr)
    ensures Size(MkNeg(a)) <= Size(Neg(a))
    ensures MkNeg(a) == Neg(a) <==> Folded(Neg(a))
    ensures Simplified(a) ==> Simplified(MkNeg(a))
  {
  }

  lemma MkAddFolds(a: Expr, b: Expr)
    ensures Size(MkAdd(a, b)) <= Size(Add(a, b))
    ensures MkAdd(a, b) == Add(a, b) <==> Folded(Add(a, b))
    ensures Simplified(a) && Simplified(b) ==> Simplified(MkAdd(a, b))
  {
  }

  lemma MkSubFolds(a: Expr, b: Expr)
    ensures Size(MkSub(a, b)) <= Size(Sub(a, b))
    ensures MkSub(a, b) == Sub(a, b) <==> Folded(Sub(a, b))
    ensures Simplified(a) && Simplified(b) ==> Simplified(MkSub(a, b))
  {
    if !(a.Const? && b.Const?) && b != Const(0) && a == Const(0) {
      MkNegFolds(b);
      assert MkSub(a, b) == MkNeg(b);
    }
  }

  lemma MkMulFolds(a: Expr, b: Expr)
    ensures Size(MkMul(a, b)) <= Size(Mul(a, b))
    ensures MkMul(a, b) == Mul(a, b) <==> Folded(Mul(a, b))
    ensures Simplified(a) && Simplified(b) ==> Simplified(MkMul(a, b))
  {
  }

  /** Division is never folded. */
  lemma MkDivKeepsSimplified(a: Expr, b: Expr)
    ensures MkDiv(a, b) == Div(a, b)
    ensures Simplified(a) && Simplified(b) ==> Simplified(MkDiv(a, b))
  {
  }

  /** Whatever a client writes, the built tree has no foldable node and is
      no larger than the tree as written. */
  lemma {:induction false} BuildSimplifies(e: Expr)
    ensures Simplified(Build(e))
    ensures Size(Build(e)) <= Size(e)
  {
    match e
    case Const(_) =>
    case Scalar(_) =>
    case Var =>
    case Neg(a) =>
      BuildSimplifies(a);
      MkNegFolds(Build(a));
    case Add(a, b) =>
      BuildSimplifies(a);
      BuildSimplifies(b);
      MkAddFolds(Build(a), Build(b));
    case Sub(a, b) =>
      BuildSimplifies(a);
      BuildSimplifies(b);
      MkSubFolds(Build(a), Build(b));
    case Mul(a, b) =>
      BuildSimplifies(a);
      BuildSimplifies(b);
      MkMulFolds(Build(a), Build(b));
    case Div(a, b) =>
      BuildSimplifies(a);
      BuildSimplifies(b);
      MkDivKeepsSimplified(Build(a), Build(b));
  }

  /** A tree without foldable nodes is built as it is written. */
  lemma {:induction false} BuildKeepsSimplified(e: Expr)
    requires Simplified(e)
    ensures Build(e) == e
  {
    match e
    case Const(_) =>
    case Scalar(_) =>
    case Var =>
    case Neg(a) => BuildKeepsSimplified(a); MkNegFolds(a);
    case Add(a, b) => BuildKeepsSimplified(a); BuildKeepsSimplified(b); MkAddFolds(a, b);
    case Sub(a, b) => BuildKeepsSimplified(a); BuildKeepsSimplified(b); MkSubFolds(a, b);
    case Mul(a, b) => BuildKeepsSimplified(a); BuildKeepsSimplified(b); MkMulFolds(a, b);
    case Div(a, b) => BuildKeepsSimplified(a); BuildKeepsSimplified(b);
  }

  /** Writing a built tree again with the operators changes nothing. */
  lemma BuildIdempotent(e: Expr)
    ensures Build(Build(e)) == Build(e)
  {
    BuildSimplifies(e);
    BuildKeepsSimplified(Build(e));
  }
}
