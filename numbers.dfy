/** The values a C++ `double` takes in this model: finite values as exact reals
    (no rounding, no overflow, a single unsigned zero), the two infinities and
    NaN. The operations follow IEEE 754 on these values: NaN absorbs everything,
    `inf - inf`, `inf * 0`, `0 / 0` and `inf / inf` are NaN, and a nonzero value
    divided by zero is an infinity of its sign. */
module Numbers {

  datatype Num = Fin(val: real) | PosInf | NegInf | NaN

  predicate IsZero(a: Num) {
    a == Fin(0.0)
  }

  /** The sign of a value that is neither NaN nor zero. */
  predicate IsPositive(a: Num) {
    a == PosInf || (a.Fin? && a.val > 0.0)
  }

  /** A signed infinity: positive exactly when `positive` holds. */
  function Infinity(positive: bool): Num {
    if positive then PosInf else NegInf
  }

  function Negate(a: Num): Num {
    match a
    case Fin(v) => Fin(-v)
    case PosInf => NegInf
    case NegInf => PosInf
    case NaN => NaN
  }

  function Plus(a: Num, b: Num): Num {
    if a.NaN? || b.NaN? then NaN
    else if a.Fin? && b.Fin? then Fin(a.val + b.val)
    else if a.Fin? then b
    else if b.Fin? then a
    else if a == b then a
    else NaN
  }

  function Minus(a: Num, b: Num): Num {
    Plus(a, Negate(b))
  }

  function Times(a: Num, b: Num): Num {
    if a.NaN? || b.NaN? then NaN
    else if a.Fin? && b.Fin? then Fin(Product(a.val, b.val))
    else if IsZero(a) || IsZero(b) then NaN
    else Infinity(IsPositive(a) == IsPositive(b))
  }

  function Quotient(a: Num, b: Num): Num {
    if a.NaN? || b.NaN? then NaN
    else if IsZero(b) then (if IsZero(a) then NaN else Infinity(IsPositive(a)))
    else if a.Fin? && b.Fin? then Fin(a.val / b.val)
    else if a.Fin? then Fin(0.0)
    else if b.Fin? then Infinity(IsPositive(a) == IsPositive(b))
    else NaN
  }

  /** Zero is the identity of addition on every value, infinities and NaN
      included. */
  lemma PlusZero(v: Num)
    ensures Plus(v, Fin(0.0)) == v
  {
  }

  lemma MinusZero(v: Num)
    ensures Minus(v, Fin(0.0)) == v
  {
    PlusZero(v);
  }

  lemma ZeroPlus(v: Num)
    ensures Plus(Fin(0.0), v) == v
  {
  }

  /** On finite operands the operations are those of the reals. */
  lemma NegateFinite(v: Num, s: real)
    requires v == Fin(s)
    ensures Negate(v) == Fin(-s)
  {
  }

  lemma PlusFinite(v: Num, w: Num, s: real, t: real)
    requires v == Fin(s) && w == Fin(t)
    ensures Plus(v, w) == Fin(s + t)
  {
  }

  lemma MinusFinite(v: Num, w: Num, s: real, t: real)
    requires v == Fin(s) && w == Fin(t)
    ensures Minus(v, w) == Fin(s - t)
  {
  }

  lemma TimesFinite(v: Num, w: Num, s: real, t: real)
    requires v == Fin(s) && w == Fin(t)
    ensures Times(v, w) == Fin(Product(s, t))
  {
  }

  lemma QuotientFinite(s: real, t: real)
    requires t != 0.0
    ensures Quotient(Fin(s), Fin(t)) == Fin(s / t)
  {
  }

  /** The real product `s * t`, the product of two finite values. */
  function Product(s: real, t: real): real {
    s * t
  }

  lemma ProductNonzero(s: real, t: real)
    requires s != 0.0 && t != 0.0
    ensures Product(s, t) != 0.0
  {
  }

  lemma ProductWithZero(s: real, t: real)
    requires s == 0.0 || t == 0.0
    ensures Product(s, t) == 0.0
  {
  }

  /** Dividing by the square of a nonzero value is real division. */
  lemma QuotientBySquare(s: real, v: real)
    requires v != 0.0
    ensures Product(v, v) != 0.0
    ensures Quotient(Fin(s), Fin(Product(v, v))) == Fin(s / Product(v, v))
  {
    ProductNonzero(v, v);
  }

  /** `std::abs` */
  function Magnitude(a: Num): Num {
    match a
    case Fin(v) => Fin(if v < 0.0 then -v else v)
    case PosInf => PosInf
    case NegInf => PosInf
    case NaN => NaN
  }

  /** `a > bound` for a real bound: false when `a` is NaN. */
  predicate Exceeds(a: Num, bound: real) {
    a == PosInf || (a.Fin? && a.val > bound)
  }
}
