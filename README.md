# Symbolic differentiation and Newton's method (simvolic_diff)

This project models `simvolic_diff.hpp`, a small engine for symbolic
differentiation. In C++ it is built from expression templates. Its parts:

- **Expression trees.** `int_constant<N>`, `scalar<VT>`, `variable`,
  `negate_expression`, `additive_expression` (`+`, `-`) and
  `multy_expression` (`*`, `/`).
- **Simplifier.** The overloaded operators fold the tree as it is written:
  constant with constant, scalar with scalar, a zero term, a zero factor.
- **Evaluation.** Each node's `operator()` computes the tree's value at a
  point.
- **Differentiation.** Each node's `diff()` builds the derivative tree.
  The product rule `l'*r + r'*l` and the quotient rule
  `(l'*r - r'*l)/(r*r)` are written in the source. Its declared result
  types let a product, or a sum or difference of a zero-derivative term with
  a non-constant one, compile only for a few operand shapes.
- **Root finder.** `newton(f, x, maxiter)` runs Newton's iteration until the
  residual is within `1e-12`. It throws "Too many iterations" once it would
  need more than `maxiter` steps.

The C++ dispatches on types at compile time. The model replaces that with
one datatype `Expr` and pattern matching. Each overload family becomes a
smart constructor: `MkNeg`, `MkAdd`, `MkSub`, `MkMul`, `MkDiv`.
`Build(e)` is the tree a client gets by writing `e` with the operators.

Values are C++ `double`s: `Num = Fin(real) | PosInf | NegInf | NaN`. The
operations follow IEEE 754 over exact reals. NaN absorbs every operand, and
`inf - inf`, `0 * inf`, `0 / 0` and `inf / inf` give NaN. A nonzero value
divided by zero gives an infinity of its sign.

Infinities and NaN are modelled because `newton` meets them: a zero
derivative sends an iterate to infinity, and a NaN residual compares false.

Differentiation is checked against a second definition. `Forward` computes
a value and its slope together, with dual numbers. The symbolic derivative
evaluates to that slope wherever `Forward` is defined. On division-free
trees the derivative lowers the polynomial degree, so repeated
differentiation ends at `Const(0)`.

`newton` is a method with a loop. Its postcondition `Returns` is stated over
`Iterate`, the sequence of Newton iterates.

Modules and files:

- `Numbers` (`numbers.dfy`): the values.
- `Expressions` (`expressions.dfy`): trees and folding.
- `Evaluation` (`evaluation.dfy`): evaluation.
- `Differentiation` (`differentiation.dfy`): differentiation.
- `Solver` (`newton.dfy`): the root finder.

## Model

| member | source | states |
|---|---|---|
| Numbers.Plus | simvolic_diff.hpp:151 | no contract; `double` addition. Its facts are PlusZero, ZeroPlus and PlusFinite |
| Numbers.Minus | simvolic_diff.hpp:156 | no contract; `double` subtraction. Its facts are MinusZero and MinusFinite |
| Numbers.Times | simvolic_diff.hpp:259 | no contract; `double` multiplication. Its fact is TimesFinite |
| Numbers.Quotient | simvolic_diff.hpp:264 | no contract; `double` division. Its facts are QuotientFinite and QuotientBySquare |
| Numbers.Negate | simvolic_diff.hpp:98 | no contract; `double` negation. Its fact is NegateFinite |
| Numbers.Magnitude | simvolic_diff.hpp:304 | no contract; `std::abs` |
| Numbers.Exceeds | simvolic_diff.hpp:304 | no contract; the comparison `> eps`, false for NaN |
| Expressions.MkNeg | simvolic_diff.hpp:101-112 | no contract; its facts are NegationFolding, MkNegFolds and Evaluation.MkNegPreservesValue |
| Expressions.MkAdd | simvolic_diff.hpp:160-212 | no contract; its facts are AdditiveFolding, AdditiveZero, ConstantAbsorbsScalar, MkAddFolds and Evaluation.MkAddPreservesValue |
| Expressions.MkSub | simvolic_diff.hpp:164-216 | no contract; its facts are AdditiveFolding, AdditiveZero, ConstantAbsorbsScalar, MkSubFolds and Evaluation.MkSubPreservesValue |
| Expressions.MkMul | simvolic_diff.hpp:267-295 | no contract; its facts are ProductFolding, MkMulFolds, Evaluation.MkMulValue and Evaluation.MkMulPreservesValue |
| Expressions.MkDiv | simvolic_diff.hpp:271-274 | no contract; its facts are MkDivKeepsSimplified |
| Expressions.Build | simvolic_diff.hpp:101-295 | no contract; its facts are BuildSimplifies, BuildKeepsSimplified, BuildIdempotent and Evaluation.BuildPreservesValue |
| Expressions.NegationFolding | simvolic_diff.hpp:101-112 | unary minus negates a constant or a scalar in place; a double negation is kept |
| Expressions.AdditiveFolding | simvolic_diff.hpp:185-216 | two constants fold to their sum and difference; so do two scalars |
| Expressions.ConstantAbsorbsScalar | simvolic_diff.hpp:117-125 | a nonzero constant plus or minus a scalar is that constant |
| Expressions.AdditiveZero | simvolic_diff.hpp:169-184 | `e + 0`, `0 + e` and `e - 0` are `e`, and `0 - e` is `-e`, for every `e` |
| Expressions.ProductFolding | simvolic_diff.hpp:276-295 | constants fold to their product; a zero factor on either side gives 0; a factor of one is not removed |
| Expressions.MkDivKeepsSimplified | simvolic_diff.hpp:271-274 | division is never folded, so a quotient of simplified trees stays simplified |
| Expressions.MkNegFolds | simvolic_diff.hpp:101-112 | unary minus never grows the tree; it builds a plain negation exactly when no rule applies; it keeps a tree simplified |
| Expressions.MkAddFolds | simvolic_diff.hpp:160-212 | the same three facts for `+` |
| Expressions.MkSubFolds | simvolic_diff.hpp:164-216 | the same three facts for `-` |
| Expressions.MkMulFolds | simvolic_diff.hpp:267-295 | the same three facts for `*` |
| Expressions.BuildSimplifies | simvolic_diff.hpp:101-295 | a tree written with the operators has no foldable node and is no larger than the tree as written |
| Expressions.BuildKeepsSimplified | simvolic_diff.hpp:101-295 | a tree with no foldable node is built exactly as written |
| Expressions.BuildIdempotent | simvolic_diff.hpp:101-295 | building an already built tree changes nothing |
| Evaluation.Eval | simvolic_diff.hpp:35-265 | no contract; each node's `operator()`. Its facts are LeafValues, NaNPropagates, the Mk*PreservesValue lemmas and Differentiation.EvalAgreesWithForward |
| Evaluation.LeafValues | simvolic_diff.hpp:35-80 | a constant evaluates to its value and the variable to its argument; a scalar evaluates to 0 whatever it holds |
| Evaluation.NaNPropagates | simvolic_diff.hpp:96-265 | a NaN operand makes its node NaN |
| Evaluation.MkNegPreservesValue | simvolic_diff.hpp:101-112 | folding a negation keeps its value at every point |
| Evaluation.MkAddPreservesValue | simvolic_diff.hpp:169-212 | every `+` rule keeps the value at every point, infinities and NaN included; the scalar rules hold because a scalar evaluates to 0 |
| Evaluation.MkSubPreservesValue | simvolic_diff.hpp:177-216 | every `-` rule keeps the value at every point |
| Evaluation.MkMulValue | simvolic_diff.hpp:276-295 | a folded product evaluates to the product of its operands' values, or to 0 when a zero factor was folded |
| Evaluation.MkMulPreservesValue | simvolic_diff.hpp:276-295 | folding a product keeps its value except where the unfolded product is NaN (zero times infinity or NaN); there the result is 0 |
| Evaluation.BuildPreservesValue | simvolic_diff.hpp:101-295 | wherever the tree as written does not evaluate to NaN, the built tree has the same value |
| Differentiation.Diff | simvolic_diff.hpp:30-244 | no contract; each node's `diff()`. Its facts are DiffLeaves, DiffKeepsSimplified, DiffAgreesWithForward and DiffLowersDegree |
| Differentiation.DiffLeaves | simvolic_diff.hpp:30-76 | a constant and a scalar differentiate to 0, the variable to 1 |
| Differentiation.DiffKeepsSimplified | simvolic_diff.hpp:88-244 | the derivative of a tree with no foldable node has none |
| Differentiation.DiffOfBuiltIsSimplified | simvolic_diff.hpp:88-244 | the derivative of any tree written with the operators has no foldable node |
| Differentiation.DiffSquare | simvolic_diff.hpp:235-239 | the derivative of `x*x` is `1*x + 1*x`, since nothing removes a factor of one, and it evaluates to `2x` |
| Differentiation.DiffOfSquarePlusVariable | main.cpp:80-81 | `x*x + x` is built as written, and its derivative is `(1*x + 1*x) + 1` |
| Differentiation.EvalAgreesWithForward | simvolic_diff.hpp:96-265 | wherever dual-number evaluation is defined, the tree evaluates to its value |
| Differentiation.DiffAgreesWithForward | simvolic_diff.hpp:88-244 | wherever dual-number evaluation is defined, the derivative tree evaluates to its slope: `diff()` computes the derivative |
| Differentiation.ProductRuleValue | simvolic_diff.hpp:235-239 | the product-rule tree `l'*r + r'*l` evaluates to `l'r + r'l` |
| Differentiation.QuotientRuleValue | simvolic_diff.hpp:240-244 | the quotient-rule tree `(l'*r - r'*l)/(r*r)` evaluates to `(l'r - r'l)/r^2` where `r` is nonzero |
| Differentiation.DiffLowersDegree | simvolic_diff.hpp:88-244 | on a division-free tree the derivative is division-free; it is `Const(0)` when the tree has degree 0, and of lower degree otherwise |
| Differentiation.RepeatedDiffVanishes | simvolic_diff.hpp:88-244 | differentiating a division-free tree more times than its degree gives `Const(0)` |
| Differentiation.ConstZeroIsFixed | simvolic_diff.hpp:30-34 | `Const(0)` differentiates to itself any number of times |
| Solver.Stops | simvolic_diff.hpp:304 | no contract; the loop's exit test, as written or corrected. Its facts are GuardsDifferOnlyOnNaN and RootResidual |
| Solver.NewtonStep | simvolic_diff.hpp:307 | no contract; one update `x - f(x)/f'(x)`. Its facts are the iterate lemmas below |
| Solver.Iterate | simvolic_diff.hpp:307 | no contract; the `k`-th iterate. Solver.Newton's loop is proved to follow it |
| Solver.CapExceeded | simvolic_diff.hpp:306 | no contract; `++niter > maxiter` on a wrapping 32-bit counter. Its facts are CapNeverFiresAtUnsignedMax and CapAgreesBelowUnsignedMax |
| Solver.Newton | simvolic_diff.hpp:297-310 | builds the derivative once and iterates `x -= f(x)/f'(x)`; returns the first iterate, within `maxiter` steps, whose residual ends the loop; fails when none of the first `maxiter + 1` does |
| Solver.ReturnsIsDeterministic | simvolic_diff.hpp:297-310 | the solver's contract allows exactly one outcome for each input |
| Solver.RootResidual | simvolic_diff.hpp:304 | a returned root has a residual within `1e-12`; the loop as written may also return one whose residual is NaN |
| Solver.GuardsDifferOnlyOnNaN | simvolic_diff.hpp:304 | the loop condition as written and the corrected one disagree exactly on a NaN residual |
| Solver.FirstIterateFromVertex | simvolic_diff.hpp:307 | from `-0.5`, where the derivative of `x*x + x` is zero, the first step reaches `+inf` |
| Solver.SecondIterateFromVertex | simvolic_diff.hpp:307 | the second step computes `inf - inf/inf`, which is NaN |
| Solver.NaNIsAbsorbing | simvolic_diff.hpp:307 | once an iterate is NaN, every later one is NaN |
| Solver.NaNAcceptedAsRoot | simvolic_diff.hpp:304 | as written, `newton(x*x + x, -0.5, maxiter)` with `maxiter >= 2` returns NaN as its root |
| Solver.NaNRejectedWhenCorrected | simvolic_diff.hpp:304 | with the corrected condition, the same call fails with "Too many iterations" |
| Solver.CapNeverFiresAtUnsignedMax | simvolic_diff.hpp:302-306 | with a 32-bit unsigned counter and `maxiter` at the largest unsigned value, `++niter > maxiter` never holds |
| Solver.CapAgreesBelowUnsignedMax | simvolic_diff.hpp:302-306 | below that value the wrapped test agrees with the unbounded `niter + 1 > maxiter` |
| Solver.LineSolvedInOneStep | simvolic_diff.hpp:297-310 | `newton(x - c, x0, maxiter)` returns exactly `c` after one step when `x0` is not already within tolerance, with the loop condition as written and with the corrected one |
| Solver.ConstantNeverConverges | simvolic_diff.hpp:297-310 | for a nonzero constant, both loop conditions end in "Too many iterations" |
| Solver.ConstantIteratesNotFinite | simvolic_diff.hpp:307 | a nonzero constant's zero derivative makes every iterate after the start infinite or NaN |

## Left out

- Floating point rounding, overflow to infinity and the sign of zero: finite values are exact reals.
- The width of `int_constant<N>`'s template argument: folded constants are unbounded integers, so the C++ compile-time overflow of `N1 + N2`, `N1 - N2` or `N1 * N2` is not modelled.
- Integer division: evaluation is always real division. In the C++, `multy_expression` evaluates `e1(x) / e2(x)`, which would truncate between two `int_constant` leaves. Division nodes are never built as written (see below).
- The console trace of each iterate inside `newton`: it is output only.
- Differentiation.Diff: the model differentiates every tree, including products that the C++ cannot differentiate. `multy_expression::diff()` is declared to return `multy_expression_type`: a sum `E1'*variable + E2'*variable` when both derivatives are constants, a bare product of the derivatives otherwise. The product rule's result has that type only for some operand shapes, such as `x*x`. For `2*x`, `(x+1)*x` or `x*x*x` the C++ does not compile, while the model gives the product-rule derivative. Sums and differences fail the same way: `additive_expression_type` has no rule for a zero term, but `e + int_constant<0>` and `e - int_constant<0>` return `e` itself. So `diff()` of `x*x + int_constant<5>()` or `x*x - _(2.0)` does not compile, while the model gives `1*x + 1*x`.
- The compile-time machinery is replaced by run-time pattern matching on `Expr`. This covers `diff_type`, the `enable_if` dispatch, `multy_expression_type`, `multvar_type`/`is_variable` and the `math_base` base class.
- The Boost headers are not part of this model.
- The set-algebra demo in main.cpp, and its hand-written `solve`, `fx` and `dfx`, are not part of this model.
- Whether `newton(x*x + x, 1.1, 1000)` in main.cpp converges: only the solver's control logic is proved.
- Solver.Newton: the counter is an unbounded natural number, so the model agrees with the 32-bit `unsigned` counter for every `maxiter` below the largest unsigned value. That one value is the second finding.
- Expressions.MkDivKeepsSimplified: `operator/` builds an `additive_expression` tagged `'/'`, which has no evaluation and no derivative. The model builds the `Div` node that the quotient rule of `multy_expression` expects.
- Expressions.AdditiveZero: `0 - int_constant<N2>` is declared to return `int_constant<N2>` but builds `int_constant<-N2>`. `0 - e` returns `-e` through a reference to the operand's type. Both are modelled by their evident meaning: `Const(-N2)` and `-e`. Also, `int_constant<0> + int_constant<0>` and `int_constant<0> - int_constant<0>` are ambiguous in the C++: the overloads at lines 190 and 194 for `+`, and at lines 202 and 206 for `-`, match equally well. The model folds both to `Const(0)`.
- Expressions.ProductFolding: `e * 0` and `0 * e` return a reference to a temporary `int_constant<0>`. The model returns the constant. `int_constant<0> * int_constant<0>` is ambiguous between the overloads at lines 289 and 293; the model folds it to `Const(0)`.
- Expressions.ConstantAbsorbsScalar: this rule is stated only by the result-type table `additive_expression_type`, and the model applies it to every tree. At run time no overload produces it, because a derivative type is never a scalar.

## Findings

| source | as written | input that shows it | evidently intended | confidence | as-written member | corrected member |
|---|---|---|---|---|---|---|
| simvolic_diff.hpp:304 | the loop runs while `abs(fx) > eps`, which is false for a NaN residual, so NaN is returned as a root | `newton(x*x + x, -0.5, 2)`: the first step divides by a zero derivative and reaches `+inf`, the second computes `inf - inf/inf` = NaN | run until `abs(fx) <= eps`, so a NaN residual keeps iterating and ends in "Too many iterations" | not executed | Solver.NaNAcceptedAsRoot | Solver.NaNRejectedWhenCorrected |
| simvolic_diff.hpp:302-306 | `++niter` on an `unsigned` counter wraps to 0, so with `maxiter` = 4294967295 the test `++niter > maxiter` never holds | `newton(f, x, 4294967295)` for any `f` without a root, such as a nonzero constant | a counter wide enough that the cap always fires after `maxiter` steps | not executed | Solver.CapNeverFiresAtUnsignedMax | Solver.CapAgreesBelowUnsignedMax |
