/**
 * Reference definitions against which the truncated solver is checked.
 *
 * `WinChance(win, lose, goal, p)` is the probability of reaching `goal`
 * points first for a real point-win probability p. `ExactCoef` runs the
 * recursion of `WinProb.Solve` without dropping any degree; its
 * coefficients are the expansion of `WinChance` in x = p − 1/2, since the
 * polynomial they form takes the value `WinChance(…, 1/2 + x)` at every x
 * (`ExactCoefIsExpansion`). The solver's cubic holds exactly the degree
 * 0..3 coefficients of that expansion (`SolveIsTruncation`), so the win
 * probability is the cubic's value plus x⁴ times the rest
 * (`SolveIsTaylorCubic`).
 */
module ExactWinProb {
  import opened TruncatedCubic
  import opened WinProb

  /** The average of a and b with weights p and 1 − p. */
  function Mix(p: real, a: real, b: real): real
  {
    p * a + (1.0 - p) * b
  }

  /** The exact probability of winning from (win, lose) when each point is won with probability p. */
  function WinChance(win: int, lose: int, goal: int, p: real): real
    requires win <= goal && lose <= goal
    decreases (goal - win) + (goal - lose)
  {
    if win == goal then 1.0
    else if lose == goal then 0.0
    else Mix(p, WinChance(win + 1, lose, goal, p), WinChance(win, lose + 1, goal, p))
  }

  // ---------------------------------------------------------------------
  // The untruncated polynomial in x = p − 1/2
  // ---------------------------------------------------------------------

  /**
   * The coefficient of x^k in the untruncated recursion of `WinProb.Solve`,
   * which `ExactCoefIsExpansion` shows to be the expansion of `WinChance`. Multiplying by p = 1/2 + x
   * takes half of degree k and moves degree k − 1 up; multiplying by
   * q = 1/2 − x takes half of degree k and moves minus degree k − 1 up.
   */
  function ExactCoef(win: int, lose: int, goal: int, k: int): real
    requires win <= goal && lose <= goal
    decreases (goal - win) + (goal - lose)
  {
    if k < 0 then 0.0
    else if win == goal then (if k == 0 then 1.0 else 0.0)
    else if lose == goal then 0.0
    else 0.5 * (ExactCoef(win + 1, lose, goal, k) + ExactCoef(win, lose + 1, goal, k))
         + (ExactCoef(win + 1, lose, goal, k - 1) - ExactCoef(win, lose + 1, goal, k - 1))
  }

  /**
   * The expansion is a polynomial: no degree above the number of points
   * that can still be played has a coefficient.
   */
  lemma {:induction false} ExactDegree(win: int, lose: int, goal: int, k: int)
    requires win <= goal && lose <= goal
    requires k > (goal - win) + (goal - lose)
    ensures ExactCoef(win, lose, goal, k) == 0.0
    decreases (goal - win) + (goal - lose)
  {
    if win < goal && lose < goal {
      ExactDegree(win + 1, lose, goal, k);
      ExactDegree(win, lose + 1, goal, k);
      ExactDegree(win + 1, lose, goal, k - 1);
      ExactDegree(win, lose + 1, goal, k - 1);
    }
  }

  /** The degree 0..3 part of the expansion, as a cubic. */
  function Truncation(win: int, lose: int, goal: int): Expr
    requires win <= goal && lose <= goal
  {
    Expr(ExactCoef(win, lose, goal, 0), ExactCoef(win, lose, goal, 1),
         ExactCoef(win, lose, goal, 2), ExactCoef(win, lose, goal, 3))
  }

  /**
   * Truncating commutes with the step: degree k of the untruncated step
   * reads only degrees k and k − 1, so its degree 0..3 part is the
   * truncated step of the degree 0..3 parts.
   */
  lemma TruncationStep(win: int, lose: int, goal: int)
    requires win < goal && lose < goal
    ensures Truncation(win, lose, goal) == Step(Truncation(win + 1, lose, goal), Truncation(win, lose + 1, goal))
  {
    CoefStep(win, lose, goal, 0, -1);
    CoefStep(win, lose, goal, 1, 0);
    CoefStep(win, lose, goal, 2, 1);
    CoefStep(win, lose, goal, 3, 2);
  }

  /** One level of `ExactCoef` below the goal, with j standing for k − 1. */
  lemma CoefStep(win: int, lose: int, goal: int, k: int, j: int)
    requires win < goal && lose < goal && 0 <= k && j == k - 1
    ensures ExactCoef(win, lose, goal, k)
         == 0.5 * (ExactCoef(win + 1, lose, goal, k) + ExactCoef(win, lose + 1, goal, k))
            + (ExactCoef(win + 1, lose, goal, j) - ExactCoef(win, lose + 1, goal, j))
  {
  }

  /** A finished race truncates to the certain win or the certain loss. */
  lemma TruncationEnds(win: int, lose: int, goal: int)
    requires win <= goal && lose <= goal
    ensures win == goal ==> Truncation(win, lose, goal) == One()
    ensures lose == goal && win < goal ==> Truncation(win, lose, goal) == Zero()
  {
  }

  /** The source's cubic holds exactly the degree 0..3 coefficients of the expansion. */
  lemma {:induction false} SolveIsTruncation(win: int, lose: int, goal: int)
    requires win <= goal && lose <= goal
    ensures Solve(win, lose, goal) == Truncation(win, lose, goal)
    decreases (goal - win) + (goal - lose)
  {
    if win < goal && lose < goal {
      SolveIsTruncation(win + 1, lose, goal);
      SolveIsTruncation(win, lose + 1, goal);
      TruncationStep(win, lose, goal);
    } else {
      TruncationEnds(win, lose, goal);
    }
  }

  /** With a fair coin the constant term is the exact win probability. */
  lemma {:induction false} FairCoinConstantTerm(win: int, lose: int, goal: int)
    requires win <= goal && lose <= goal
    ensures Solve(win, lose, goal).zero == WinChance(win, lose, goal, 0.5)
    decreases (goal - win) + (goal - lose)
  {
    if win < goal && lose < goal {
      FairCoinConstantTerm(win + 1, lose, goal);
      FairCoinConstantTerm(win, lose + 1, goal);
    }
  }

  /** For every point-win probability in [0, 1] the win probability lies in [0, 1]. */
  lemma {:induction false} WinChanceIsProbability(win: int, lose: int, goal: int, p: real)
    requires win <= goal && lose <= goal
    requires 0.0 <= p <= 1.0
    ensures 0.0 <= WinChance(win, lose, goal, p) <= 1.0
    decreases (goal - win) + (goal - lose)
  {
    if win < goal && lose < goal {
      WinChanceIsProbability(win + 1, lose, goal, p);
      WinChanceIsProbability(win, lose + 1, goal, p);
      Convex(p, WinChance(win + 1, lose, goal, p), WinChance(win, lose + 1, goal, p));
    }
  }

  // ---------------------------------------------------------------------
  // The expansion takes the value of the win probability
  // ---------------------------------------------------------------------

  /**
   * Horner's rule on the coefficients k..n: the value at x of
   * ExactCoef(k) + ExactCoef(k + 1)·x + … + ExactCoef(n)·x^(n − k).
   */
  function Horner(win: int, lose: int, goal: int, x: real, k: int, n: int): real
    requires win <= goal && lose <= goal
    decreases n - k
  {
    if k > n then 0.0
    else HornerNext(x, ExactCoef(win, lose, goal, k), Horner(win, lose, goal, x, k + 1, n))
  }

  /** One step of Horner's rule: the coefficient c plus x times the rest. */
  function HornerNext(x: real, c: real, rest: real): real
  {
    c + x * rest
  }

  /**
   * The value of one step of the coefficient recurrence in terms of the two
   * successor values a and b and their coefficients c and d one degree lower.
   */
  function Combine(x: real, a: real, b: real, c: real, d: real): real
  {
    0.5 * (a + b) + (c - d) + x * (a - b)
  }

  /** Horner's rule below the goal, in terms of the two successor scores (j stands for k − 1). */
  lemma {:induction false} HornerStep(win: int, lose: int, goal: int, x: real, k: int, j: int, n: int)
    requires win < goal && lose < goal
    requires 0 <= k <= n + 1 && j == k - 1 && n >= (goal - win) + (goal - lose)
    ensures Horner(win, lose, goal, x, k, n)
         == Combine(x, Horner(win + 1, lose, goal, x, k, n), Horner(win, lose + 1, goal, x, k, n),
                    ExactCoef(win + 1, lose, goal, j), ExactCoef(win, lose + 1, goal, j))
    decreases n - k
  {
    if k > n {
      ExactDegree(win + 1, lose, goal, n);
      ExactDegree(win, lose + 1, goal, n);
      CombineOfZeros(x, Horner(win + 1, lose, goal, x, k, n), Horner(win, lose + 1, goal, x, k, n),
                     ExactCoef(win + 1, lose, goal, j), ExactCoef(win, lose + 1, goal, j));
    } else {
      HornerStep(win, lose, goal, x, k + 1, k, n);
      CoefStep(win, lose, goal, k, j);
      HornerArith(x, ExactCoef(win, lose, goal, k), Horner(win, lose, goal, x, k + 1, n),
                  ExactCoef(win + 1, lose, goal, k), ExactCoef(win, lose + 1, goal, k),
                  ExactCoef(win + 1, lose, goal, j), ExactCoef(win, lose + 1, goal, j),
                  Horner(win + 1, lose, goal, x, k + 1, n), Horner(win, lose + 1, goal, x, k + 1, n));
    }
  }

  /** At a finished race every coefficient but the constant one is zero. */
  lemma {:induction false} HornerEnds(win: int, lose: int, goal: int, x: real, k: int, n: int)
    requires win <= goal && lose <= goal && (win == goal || lose == goal)
    requires 0 <= k
    ensures Horner(win, lose, goal, x, k, n) == (if win == goal && k == 0 && 0 <= n then 1.0 else 0.0)
    decreases n - k
  {
    if k <= n {
      HornerEnds(win, lose, goal, x, k + 1, n);
    }
  }

  /**
   * For p = 1/2 + x, the polynomial with coefficients `ExactCoef` takes the
   * value `WinChance` at every x: the coefficients are the exact expansion of
   * the win probability around p = 1/2, with nothing dropped.
   */
  lemma {:induction false} ExactCoefIsExpansion(win: int, lose: int, goal: int, x: real, n: int)
    requires win <= goal && lose <= goal
    requires n >= (goal - win) + (goal - lose)
    ensures Horner(win, lose, goal, x, 0, n) == WinChance(win, lose, goal, 0.5 + x)
    decreases (goal - win) + (goal - lose)
  {
    if win < goal && lose < goal {
      ExactCoefIsExpansion(win + 1, lose, goal, x, n);
      ExactCoefIsExpansion(win, lose + 1, goal, x, n);
      HornerStep(win, lose, goal, x, 0, -1, n);
      MixIsCombine(x, WinChance(win + 1, lose, goal, 0.5 + x), WinChance(win, lose + 1, goal, 0.5 + x),
                   ExactCoef(win + 1, lose, goal, -1), ExactCoef(win, lose + 1, goal, -1));
    } else {
      HornerEnds(win, lose, goal, x, 0, n);
    }
  }

  /**
   * The source's cubic is the expansion of the win probability around
   * p = 1/2 up to degree 3: for every x, the exact win probability at
   * p = 1/2 + x is the value of `Solve` at x plus x⁴ times the value of the
   * coefficients of degree 4 and up.
   */
  lemma SolveIsTaylorCubic(win: int, lose: int, goal: int, x: real, n: int)
    requires win <= goal && lose <= goal
    requires n >= (goal - win) + (goal - lose) && n >= 3
    ensures WinChance(win, lose, goal, 0.5 + x) == EvalPlusHigh(Solve(win, lose, goal), Horner(win, lose, goal, x, 4, n), x)
  {
    ExactCoefIsExpansion(win, lose, goal, x, n);
    SolveIsTruncation(win, lose, goal);
    HornerUnfold(win, lose, goal, x, 0, 1, n);
    HornerUnfold(win, lose, goal, x, 1, 2, n);
    HornerUnfold(win, lose, goal, x, 2, 3, n);
    HornerUnfold(win, lose, goal, x, 3, 4, n);
    HornerSplit(x, Horner(win, lose, goal, x, 0, n), Horner(win, lose, goal, x, 1, n),
                Horner(win, lose, goal, x, 2, n), Horner(win, lose, goal, x, 3, n),
                Horner(win, lose, goal, x, 4, n), Solve(win, lose, goal));
  }

  /** The value at x of the cubic e followed by terms of degree 4 and up whose value is x⁴·high. */
  function EvalPlusHigh(e: Expr, high: real, x: real): real
  {
    Eval(e, x) + x * x * x * x * high
  }

  /** One step of Horner's rule below n, with k1 standing for k + 1. */
  lemma HornerUnfold(win: int, lose: int, goal: int, x: real, k: int, k1: int, n: int)
    requires win <= goal && lose <= goal && k <= n && k1 == k + 1
    ensures Horner(win, lose, goal, x, k, n) == HornerNext(x, ExactCoef(win, lose, goal, k), Horner(win, lose, goal, x, k1, n))
  {
  }

  // ---------------------------------------------------------------------
  // Identities over plain reals
  // ---------------------------------------------------------------------

  /** A weight in [0, 1] times a value in [0, 1] lies between 0 and the weight. */
  lemma WeightedBound(w: real, a: real)
    requires 0.0 <= w && 0.0 <= a <= 1.0
    ensures 0.0 <= w * a <= w
  {
  }

  lemma SumBound(p: real, q: real, pa: real, qb: real)
    requires 0.0 <= pa <= p && 0.0 <= qb <= q && q == 1.0 - p
    ensures 0.0 <= pa + qb <= 1.0
  {
  }

  /** An average with weights in [0, 1] of two values in [0, 1] lies in [0, 1]. */
  lemma Convex(p: real, a: real, b: real)
    requires 0.0 <= p <= 1.0 && 0.0 <= a <= 1.0 && 0.0 <= b <= 1.0
    ensures 0.0 <= Mix(p, a, b) <= 1.0
  {
    WeightedBound(p, a);
    WeightedBound(1.0 - p, b);
    SumBound(p, 1.0 - p, p * a, (1.0 - p) * b);
  }

  /** One step of Horner's rule commutes with the coefficient recurrence. */
  lemma HornerArith(x: real, cs: real, hs: real, a0: real, b0: real, a1: real, b1: real, ha: real, hb: real)
    requires cs == 0.5 * (a0 + b0) + (a1 - b1)
    requires hs == Combine(x, ha, hb, a0, b0)
    ensures HornerNext(x, cs, hs) == Combine(x, HornerNext(x, a0, ha), HornerNext(x, b0, hb), a1, b1)
  {
  }

  /** Past the degree bound the recurrence combines zeros. */
  lemma CombineOfZeros(x: real, a: real, b: real, c: real, d: real)
    requires a == 0.0 && b == 0.0 && c == 0.0 && d == 0.0
    ensures Combine(x, a, b, c, d) == 0.0
  {
  }

  /** Weighting by p = 1/2 + x and 1 − p = 1/2 − x. */
  lemma MixIsCombine(x: real, a: real, b: real, c: real, d: real)
    requires c == 0.0 && d == 0.0
    ensures Mix(0.5 + x, a, b) == Combine(x, a, b, c, d)
  {
  }

  /** Horner's rule split after degree 3. */
  lemma HornerSplit(x: real, h0: real, h1: real, h2: real, h3: real, h4: real, e: Expr)
    requires h0 == HornerNext(x, e.zero, h1) && h1 == HornerNext(x, e.one, h2)
    requires h2 == HornerNext(x, e.two, h3) && h3 == HornerNext(x, e.three, h4)
    ensures h0 == EvalPlusHigh(e, h4, x)
  {
  }
}
