/**
 * The truncated cubic polynomial algebra of the win-probability core.
 *
 * An `Expr` is c0 + c1·x + c2·x² + c3·x³ in the variable x = p − 1/2, with
 * exact rational coefficients (Dafny's `real` holds exact rationals, as the
 * source's `Fraction` does). Addition and subtraction are coefficientwise;
 * multiplication keeps the degree 0..3 part of the product and never forms
 * the terms of degree 4, 5 and 6.
 */
module TruncatedCubic {

  /** Four exact coefficients, lowest degree first. */
  datatype Expr = Expr(zero: real, one: real, two: real, three: real)

  /** The constant polynomial 0 (certain loss). */
  function Zero(): Expr { Expr(0.0, 0.0, 0.0, 0.0) }

  /** The constant polynomial 1 (certain win). */
  function One(): Expr { Expr(1.0, 0.0, 0.0, 0.0) }

  /** A constant polynomial. */
  function Const(c: real): Expr { Expr(c, 0.0, 0.0, 0.0) }

  /** Coefficientwise sum (`Expr.__add__`). */
  function Add(a: Expr, b: Expr): Expr
  {
    Expr(a.zero + b.zero, a.one + b.one, a.two + b.two, a.three + b.three)
  }

  /** Coefficientwise difference (`Expr.__sub__`). */
  function Sub(a: Expr, b: Expr): Expr
  {
    Expr(a.zero - b.zero, a.one - b.one, a.two - b.two, a.three - b.three)
  }

  /** Truncated product (`Expr.__mul__`): degrees 0..3 of the Cauchy product. */
  function Mul(a: Expr, b: Expr): Expr
  {
    Expr(
      a.zero * b.zero,
      a.zero * b.one + a.one * b.zero,
      a.zero * b.two + a.one * b.one + a.two * b.zero,
      a.zero * b.three + a.one * b.two + a.two * b.one + a.three * b.zero)
  }

  /** The polynomial equal to p, that is 1/2 + x (`p()`). */
  function P(): Expr { Expr(0.5, 1.0, 0.0, 0.0) }

  /** The polynomial equal to q = 1 − p, that is 1/2 − x (`q()`). */
  function Q(): Expr { Expr(0.5, -1.0, 0.0, 0.0) }

  // ---------------------------------------------------------------------
  // Reference views: the value of a polynomial at a point, the part of the
  // full product that the truncation drops, and the reflection x ↦ −x.
  // ---------------------------------------------------------------------

  /** The value of the polynomial at x (Horner form). */
  function Eval(e: Expr, x: real): real
  {
    e.zero + x * (e.one + x * (e.two + x * e.three))
  }

  /**
   * The coefficients of x⁴, x⁵ and x⁶ in the untruncated product of a and b,
   * shifted down by four degrees: every product a_i·b_j with i + j ≥ 4.
   */
  function HighPart(a: Expr, b: Expr): Expr
  {
    Expr(a.one * b.three + a.two * b.two + a.three * b.one, a.two * b.three + a.three * b.two, a.three * b.three, 0.0)
  }

  /** Substitutes −x for x: the polynomial in terms of q − 1/2 instead of p − 1/2. */
  function Reflect(e: Expr): Expr
  {
    Expr(e.zero, -e.one, e.two, -e.three)
  }

  // ---------------------------------------------------------------------
  // Addition and subtraction
  // ---------------------------------------------------------------------

  /** Addition is commutative and has the all-zero polynomial as identity. */
  lemma AddCommutativeWithIdentity(a: Expr, b: Expr)
    ensures Add(a, b) == Add(b, a)
    ensures Add(a, Zero()) == a && Add(Zero(), a) == a
  {
  }

  /** Addition is associative. */
  lemma AddAssociative(a: Expr, b: Expr, c: Expr)
    ensures Add(Add(a, b), c) == Add(a, Add(b, c))
  {
  }

  /** Subtraction undoes addition, and a − a is the all-zero polynomial. */
  lemma SubUndoesAdd(a: Expr, b: Expr)
    ensures Sub(Add(a, b), b) == a
    ensures Add(Sub(a, b), b) == a
    ensures Sub(a, a) == Zero()
  {
  }

  /** Addition and subtraction agree with the sum and difference of values. */
  lemma EvalAddSub(a: Expr, b: Expr, x: real)
    ensures Eval(Add(a, b), x) == Eval(a, x) + Eval(b, x)
    ensures Eval(Sub(a, b), x) == Eval(a, x) - Eval(b, x)
  {
  }

  // ---------------------------------------------------------------------
  // Multiplication
  // ---------------------------------------------------------------------

  /**
   * The product's value differs from the product of values by exactly the
   * degree 4, 5 and 6 terms of the full product, which the truncation drops.
   */
  lemma EvalMulTruncates(a: Expr, b: Expr, x: real)
    ensures Eval(a, x) * Eval(b, x) == Eval(Mul(a, b), x) + x * x * x * x * Eval(HighPart(a, b), x)
  {
    EvalMulExpanded(a, b, x);
    EvalHighPartExpanded(a, b, x);
    ExpandProduct(a.zero, a.one, a.two, a.three, b.zero, b.one, b.two, b.three, x,
                  Eval(a, x), Eval(b, x), Eval(Mul(a, b), x), Eval(HighPart(a, b), x));
  }

  lemma EvalMulExpanded(a: Expr, b: Expr, x: real)
    ensures Eval(Mul(a, b), x)
         == a.zero * b.zero + x * ((a.zero * b.one + a.one * b.zero) + x * ((a.zero * b.two + a.one * b.one + a.two * b.zero)
            + x * (a.zero * b.three + a.one * b.two + a.two * b.one + a.three * b.zero)))
  {
  }

  lemma EvalHighPartExpanded(a: Expr, b: Expr, x: real)
    ensures Eval(HighPart(a, b), x)
         == (a.one * b.three + a.two * b.two + a.three * b.one) + x * ((a.two * b.three + a.three * b.two) + x * (a.three * b.three + x * 0.0))
  {
  }

  /** Products of monomials whose degrees add up to 4 or more vanish. */
  lemma HighDegreeProductsVanish(s: real, t: real)
    ensures Mul(Expr(0.0, s, 0.0, 0.0), Expr(0.0, 0.0, 0.0, t)) == Zero()
    ensures Mul(Expr(0.0, 0.0, s, 0.0), Expr(0.0, 0.0, t, 0.0)) == Zero()
    ensures Mul(Expr(0.0, 0.0, s, s), Expr(0.0, 0.0, t, t)) == Zero()
    ensures Mul(Expr(0.0, 0.0, 0.0, s), Expr(0.0, t, t, t)) == Zero()
  {
  }

  /** Multiplication is commutative, with One() as a two-sided identity and Zero() absorbing. */
  lemma MulCommutativeWithIdentity(a: Expr, b: Expr)
    ensures Mul(a, b) == Mul(b, a)
    ensures Mul(One(), a) == a && Mul(a, One()) == a
    ensures Mul(Zero(), a) == Zero()
  {
  }

  // ---------------------------------------------------------------------
  // The constants p and q, and the reflection x ↦ −x
  // ---------------------------------------------------------------------

  /** p and q are the values 1/2 + x and 1/2 − x, so p + q == 1. */
  lemma PAndQ(x: real)
    ensures Eval(P(), x) == 0.5 + x && Eval(Q(), x) == 0.5 - x
    ensures Add(P(), Q()) == One()
  {
  }

  /** Multiplying a constant c by p halves it in degree 0 and puts c in degree 1. */
  lemma PScalesConstant(c: real)
    ensures Mul(P(), Const(c)) == Expr(c / 2.0, c, 0.0, 0.0)
    ensures Mul(Q(), Const(c)) == Expr(c / 2.0, -c, 0.0, 0.0)
  {
  }

  /** Reflection turns p into q. */
  lemma ReflectPIsQ()
    ensures Reflect(P()) == Q()
  {
  }

  /** A reflected polynomial takes at x the value the original takes at −x. */
  lemma EvalReflect(a: Expr, x: real)
    ensures Eval(Reflect(a), x) == Eval(a, -x)
  {
  }

  // ---------------------------------------------------------------------
  // The ring identity behind EvalMulTruncates, over plain reals, kept apart
  // so that the nonlinear step is proved on its own.
  // ---------------------------------------------------------------------

  lemma ExpandProduct(a0: real, a1: real, a2: real, a3: real, b0: real, b1: real, b2: real, b3: real, x: real,
                      ea: real, eb: real, em: real, eh: real)
    requires ea == a0 + x * (a1 + x * (a2 + x * a3))
    requires eb == b0 + x * (b1 + x * (b2 + x * b3))
    requires em == a0 * b0 + x * ((a0 * b1 + a1 * b0) + x * ((a0 * b2 + a1 * b1 + a2 * b0)
                   + x * (a0 * b3 + a1 * b2 + a2 * b1 + a3 * b0)))
    requires eh == (a1 * b3 + a2 * b2 + a3 * b1) + x * ((a2 * b3 + a3 * b2) + x * (a3 * b3 + x * 0.0))
    ensures ea * eb == em + x * x * x * x * eh
  {
  }
}
