/** The Newton root finder `newton(expr, x, maxiter)`: the derivative is
    built once, then `x := x - f(x) / f'(x)` is repeated until the residual
    is within the tolerance, or fails once more than `maxiter` steps would be
    needed. */
module Solver {
  import opened Numbers
  import opened Expressions
  import opened Evaluation
  import opened Differentiation

  /** The fixed tolerance `1e-12`. */
  const Eps: real := 0.000000000001

  /** `|fx| <= eps`: the residual is small enough to accept `x` as a root. */
  predicate WithinTolerance(fx: Num) {
    fx.Fin? && -Eps <= fx.val <= Eps
  }

  /** Which loop condition the solver runs with. `AsWritten` keeps iterating
      while `|fx| > eps`, which is false for NaN; `Corrected` keeps iterating
      until `|fx| <= eps`. */
  datatype Guard = AsWritten | Corrected

  /** The loop ends at a residual `fx`. */
  predicate Stops(g: Guard, fx: Num) {
    match g
    case AsWritten => !Exceeds(Magnitude(fx), Eps)
    case Corrected => WithinTolerance(fx)
  }

  /** One Newton step `x - f(x) / f'(x)`. */
  function NewtonStep(f: Expr, x: Num): Num {
    Minus(x, Quotient(Eval(f, x), Eval(Diff(f), x)))
  }

  /** The `k`-th Newton iterate from `x0`. */
  function Iterate(f: Expr, x0: Num, k: nat): Num
    decreases k
  {
    if k == 0 then x0 else NewtonStep(f, Iterate(f, x0, k - 1))
  }

  /** The result of the solver: a root, or the "Too many iterations" error. */
  datatype Outcome = Root(x: Num) | TooManyIterations

  /** None of the first `n` iterates ends the loop. */
  predicate RunsThrough(g: Guard, f: Expr, x0: Num, n: nat) {
    forall j :: 0 <= j < n ==> !Stops(g, Eval(f, Iterate(f, x0, j)))
  }

  /** What the solver promises: a root is the first iterate that ends the
      loop, reached in at most `maxiter` steps; the error means that none of
      the first `maxiter + 1` iterates ends it. */
  predicate Returns(g: Guard, f: Expr, x0: Num, maxiter: nat, r: Outcome) {
    match r
    case Root(x) =>
      exists k :: 0 <= k <= maxiter && x == Iterate(f, x0, k)
                  && Stops(g, Eval(f, x)) && RunsThrough(g, f, x0, k)
    case TooManyIterations => RunsThrough(g, f, x0, maxiter + 1)
  }

  /** `newton`. The counter is incremented before it is compared with
      `maxiter`, so `x` is updated at most `maxiter` times. The console trace
      of each iterate is not modelled. */
  method Newton(g: Guard, f: Expr, x0: Num, maxiter: nat) returns (r: Outcome)
    ensures Returns(g, f, x0, maxiter, r)
  {
    var fd := Diff(f);
    var x := x0;
    var niter: nat := 0;
    var fx := Eval(f, x);
    while !Stops(g, fx)
      invariant niter <= maxiter && AfterSteps(g, f, x0, niter, x, fx)
      decreases maxiter - niter
    {
      StepKeepsAfterSteps(g, f, x0, niter, x, fx);
      niter := niter + 1;
      if niter > maxiter {
        return TooManyIterations;
      }
      x := Minus(x, Quotient(fx, Eval(fd, x)));
      fx := Eval(f, x);
    }
    FirstStopIsRoot(g, f, x0, maxiter, niter);
    return Root(x);
  }

  /** After `n` steps the solver holds the `n`-th iterate and its residual,
      and no earlier residual stopped it. */
  predicate AfterSteps(g: Guard, f: Expr, x0: Num, n: nat, x: Num, fx: Num) {
    x == Iterate(f, x0, n) && fx == Eval(f, x) && RunsThrough(g, f, x0, n)
  }

  /** One more step, with the derivative tree built once, keeps the loop's
      state in step with the iterates. */
  lemma StepKeepsAfterSteps(g: Guard, f: Expr, x0: Num, n: nat, x: Num, fx: Num)
    requires AfterSteps(g, f, x0, n, x, fx) && !Stops(g, fx)
    ensures RunsThrough(g, f, x0, n + 1)
    ensures AfterSteps(g, f, x0, n + 1, Minus(x, Quotient(fx, Eval(Diff(f), x))),
                       Eval(f, Minus(x, Quotient(fx, Eval(Diff(f), x)))))
  {
    RunsThroughNext(g, f, x0, n);
  }

  lemma RunsThroughNext(g: Guard, f: Expr, x0: Num, n: nat)
    requires RunsThrough(g, f, x0, n)
    requires !Stops(g, Eval(f, Iterate(f, x0, n)))
    ensures RunsThrough(g, f, x0, n + 1)
  {
  }

  lemma FirstStopIsRoot(g: Guard, f: Expr, x0: Num, maxiter: nat, n: nat)
    requires n <= maxiter && RunsThrough(g, f, x0, n)
    requires Stops(g, Eval(f, Iterate(f, x0, n)))
    ensures Returns(g, f, x0, maxiter, Root(Iterate(f, x0, n)))
  {
  }

  /** The specification determines the outcome: at most one outcome meets
      it. */
  lemma ReturnsIsDeterministic(g: Guard, f: Expr, x0: Num, maxiter: nat, r1: Outcome, r2: Outcome)
    requires Returns(g, f, x0, maxiter, r1) && Returns(g, f, x0, maxiter, r2)
    ensures r1 == r2
  {
    if r1.Root? && r2.Root? {
      var k1 :| 0 <= k1 <= maxiter && r1.x == Iterate(f, x0, k1)
                && Stops(g, Eval(f, r1.x)) && RunsThrough(g, f, x0, k1);
      var k2 :| 0 <= k2 <= maxiter && r2.x == Iterate(f, x0, k2)
                && Stops(g, Eval(f, r2.x)) && RunsThrough(g, f, x0, k2);
    }
  }

  /** A root returned by the corrected solver has a residual within the
      tolerance; one returned by the solver as written has a residual within
      the tolerance or NaN. */
  lemma RootResidual(g: Guard, f: Expr, x0: Num, maxiter: nat, r: Outcome)
    requires Returns(g, f, x0, maxiter, r) && r.Root?
    ensures g == Corrected ==> WithinTolerance(Eval(f, r.x))
    ensures g == AsWritten ==> WithinTolerance(Eval(f, r.x)) || Eval(f, r.x) == NaN
  {
    var fx := Eval(f, r.x);
    if g == AsWritten && fx != NaN {
      assert !Exceeds(Magnitude(fx), Eps);
      assert fx.Fin?;
    }
  }

  /** The two loop conditions agree on every residual except NaN, which
      ends the loop as written but not the corrected one. */
  lemma GuardsDifferOnlyOnNaN(fx: Num)
    ensures Stops(AsWritten, fx) != Stops(Corrected, fx) <==> fx == NaN
  {
  }

  // A NaN residual is accepted as a root by the loop as written

  /** `x*x + x`, the expression solved by the program's entry point. */
  const SquarePlusVariable: Expr := Add(Mul(Var, Var), Var)

  lemma VertexResidual()
    ensures Eval(SquarePlusVariable, Fin(-0.5)) == Fin(-0.25)
  {
  }

  /** At `-0.5` the derivative `1*x + 1*x + 1` is zero. */
  lemma VertexSlopeIsZero()
    ensures Eval(Diff(SquarePlusVariable), Fin(-0.5)) == Fin(0.0)
  {
    DiffOfSquarePlusVariable();
    assert Eval(Mul(Const(1), Var), Fin(-0.5)) == Fin(-0.5);
  }

  /** So the first step divides `-0.25` by zero and lands on `+inf`. */
  lemma FirstIterateFromVertex()
    ensures Iterate(SquarePlusVariable, Fin(-0.5), 1) == PosInf
  {
    VertexResidual();
    VertexSlopeIsZero();
    assert Quotient(Fin(-0.25), Fin(0.0)) == NegInf;
    assert Iterate(SquarePlusVariable, Fin(-0.5), 1) == Minus(Fin(-0.5), NegInf);
  }

  /** At `+inf` the residual and the derivative are both `+inf`. */
  lemma ValuesAtInfinity()
    ensures Eval(SquarePlusVariable, PosInf) == PosInf
    ensures Eval(Diff(SquarePlusVariable), PosInf) == PosInf
  {
    DiffOfSquarePlusVariable();
    assert Eval(Mul(Const(1), Var), PosInf) == PosInf;
  }

  /** ... and the second step computes `inf - inf/inf`, which is NaN. */
  lemma SecondIterateFromVertex()
    ensures Iterate(SquarePlusVariable, Fin(-0.5), 2) == NaN
  {
    FirstIterateFromVertex();
    ValuesAtInfinity();
    assert Iterate(SquarePlusVariable, Fin(-0.5), 2) == NewtonStep(SquarePlusVariable, PosInf);
  }

  /** As written, `newton(x*x + x, -0.5, maxiter)` with `maxiter >= 2`
      returns NaN as its root. */
  lemma NaNAcceptedAsRoot(maxiter: nat, r: Outcome)
    requires maxiter >= 2
    requires Returns(AsWritten, SquarePlusVariable, Fin(-0.5), maxiter, r)
    ensures r == Root(NaN)
  {
    var f := SquarePlusVariable;
    VertexResidual();
    FirstIterateFromVertex();
    ValuesAtInfinity();
    SecondIterateFromVertex();
    assert RunsThrough(AsWritten, f, Fin(-0.5), 2) by {
      forall j | 0 <= j < 2
        ensures !Stops(AsWritten, Eval(f, Iterate(f, Fin(-0.5), j)))
      {
      }
    }
    FirstStopIsRoot(AsWritten, f, Fin(-0.5), maxiter, 2);
    ReturnsIsDeterministic(AsWritten, f, Fin(-0.5), maxiter, r, Root(NaN));
  }

  /** Once an iterate is NaN, every later iterate is NaN. */
  lemma {:induction false} NaNIsAbsorbing(f: Expr, x0: Num, j: nat, k: nat)
    requires Iterate(f, x0, j) == NaN
    requires j <= k
    ensures Iterate(f, x0, k) == NaN
    decreases k - j
  {
    if j < k {
      assert Iterate(f, x0, j + 1) == NewtonStep(f, NaN);
      NaNIsAbsorbing(f, x0, j + 1, k);
    }
  }

  /** The corrected solver reports the failure instead: from `-0.5` no
      iterate of `x*x + x` is ever accepted. */
  lemma NaNRejectedWhenCorrected(maxiter: nat, r: Outcome)
    requires Returns(Corrected, SquarePlusVariable, Fin(-0.5), maxiter, r)
    ensures r == TooManyIterations
  {
    var f := SquarePlusVariable;
    VertexResidual();
    FirstIterateFromVertex();
    ValuesAtInfinity();
    SecondIterateFromVertex();
    assert RunsThrough(Corrected, f, Fin(-0.5), maxiter + 1) by {
      forall j | 0 <= j < maxiter + 1
        ensures !Stops(Corrected, Eval(f, Iterate(f, Fin(-0.5), j)))
      {
        if j >= 2 {
          NaNIsAbsorbing(f, Fin(-0.5), 2, j);
        }
      }
    }
    ReturnsIsDeterministic(Corrected, f, Fin(-0.5), maxiter, r, TooManyIterations);
  }

  // The iteration counter is a 32-bit unsigned integer

  const UnsignedLimit: int := 0x1_0000_0000

  /** `++niter > maxiter` on `unsigned` values: the increment wraps to 0 at
      the limit. */
  predicate CapExceeded(niter: nat, maxiter: nat)
    requires niter < UnsignedLimit && maxiter < UnsignedLimit
  {
    (niter + 1) % UnsignedLimit > maxiter
  }

  /** With `maxiter` the largest unsigned value, the cap never fires, whatever
      the counter holds: the loop as written cannot fail. */
  lemma CapNeverFiresAtUnsignedMax(niter: nat)
    requires niter < UnsignedLimit
    ensures !CapExceeded(niter, UnsignedLimit - 1)
  {
  }

  /** Below that value the wrapped comparison is the unbounded one, which the
      model's counter uses for every `maxiter`. */
  lemma CapAgreesBelowUnsignedMax(niter: nat, maxiter: nat)
    requires niter <= maxiter < UnsignedLimit - 1
    ensures CapExceeded(niter, maxiter) <==> niter + 1 > maxiter
  {
  }

  // Solved and failing scenarios

  /** `x - c` has the derivative `1 - 0`, which folds to the constant 1, so
      the first step from any `x0` lands exactly on `c`. */
  lemma LineStep(c: int, x0: real)
    ensures Iterate(Sub(Var, Const(c)), Fin(x0), 1) == Fin(c as real)
  {
    var f := Sub(Var, Const(c));
    assert Diff(f) == Const(1);
    assert Eval(f, Fin(x0)) == Fin(x0 - c as real);
    QuotientFinite(x0 - c as real, 1.0);
    assert Iterate(f, Fin(x0), 1) == Minus(Fin(x0), Fin((x0 - c as real) / 1.0));
  }

  /** `newton(x - c, x0, maxiter)` from a start not already within the
      tolerance returns `c` after one step, with either loop condition. */
  lemma LineSolvedInOneStep(g: Guard, c: int, x0: real, maxiter: nat, r: Outcome)
    requires maxiter >= 1
    requires !WithinTolerance(Fin(x0 - c as real))
    requires Returns(g, Sub(Var, Const(c)), Fin(x0), maxiter, r)
    ensures r == Root(Fin(c as real))
  {
    var f := Sub(Var, Const(c));
    LineStep(c, x0);
    assert Eval(f, Fin(x0)) == Fin(x0 - c as real);
    assert Eval(f, Fin(c as real)) == Fin(0.0);
    assert RunsThrough(g, f, Fin(x0), 1) by {
      forall j | 0 <= j < 1
        ensures !Stops(g, Eval(f, Iterate(f, Fin(x0), j)))
      {
      }
    }
    FirstStopIsRoot(g, f, Fin(x0), maxiter, 1);
    ReturnsIsDeterministic(g, f, Fin(x0), maxiter, r, Root(Fin(c as real)));
  }

  /** A nonzero constant has no root: its residual never drops below the
      tolerance, so either solver fails. */
  lemma ConstantNeverConverges(g: Guard, n: int, x0: Num, maxiter: nat, r: Outcome)
    requires n != 0
    requires Returns(g, Const(n), x0, maxiter, r)
    ensures r == TooManyIterations
  {
  }

  /** ... and its zero derivative makes every iterate after the first
      infinite or NaN. */
  lemma {:induction false} ConstantIteratesNotFinite(n: int, x0: Num, k: nat)
    requires n != 0 && k >= 1
    ensures !Iterate(Const(n), x0, k).Fin?
  {
    var prev := Iterate(Const(n), x0, k - 1);
    assert Eval(Diff(Const(n)), prev) == Fin(0.0);
    if k > 1 {
      ConstantIteratesNotFinite(n, x0, k - 1);
    }
  }
}
