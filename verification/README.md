# Win probability as a truncated cubic in p − 1/2

This project models the core of `win_prob`. The core computes a player's
chance of winning a race to `goal` points from the score `win`–`lose` when
every point is won independently with probability p. The answer is not a
number but a polynomial in x = p − 1/2, kept exactly (rational coefficients)
up to degree 3.

- `TruncatedCubic` (expr.dfy) is the `Expr` value type. It holds four exact
  coefficients, modelled with Dafny's `real`, which holds exact rationals as
  `Fraction` does. It also defines:
  - its coefficientwise `+` and `-`;
  - its truncated product;
  - the constants `p()` = 1/2 + x and `q()` = 1/2 − x.

  Three reference views make its contracts meaningful: the value at a point
  (`Eval`), the dropped degree-4..6 part of a product (`HighPart`) and the
  substitution x ↦ −x (`Reflect`).
- `WinProb` (prob.dfy) is the recursive `prob(win, lose, goal = 30)`:
  - the range check that raises `ValueError` becomes a `Result` failure;
  - a reached goal for the player is a certain win, and it is checked before
    a reached goal for the opponent;
  - otherwise the answer is `p()·prob(win+1, lose) + q()·prob(win, lose+1)`.

  The `@cache` decorator becomes the class `Solver`. Its `memo` map is
  updated in place by the recursive method `CachedProb`.
- `ExactWinProb` (exact.dfy) holds two reference definitions:
  - `WinChance`, the exact win probability for a real p;
  - `ExactCoef`, the same recursion with no degree dropped.

  The polynomial formed by `ExactCoef` is proved to take the value
  `WinChance` at p = 1/2 + x for every x, so its coefficients are the
  expansion of the win probability around p = 1/2. The solver's cubic is
  proved to be exactly the degree 0..3 part of that expansion. This is the
  promise of the `Expr` docstring: the probability expanded around p = 1/2
  with degree 4 and up dropped.

The source accepts any `int` for `win`, `lose` and `goal`, negative ones
included. Its only explicit check rejects a score above the goal. The model
does the same and uses `int` throughout, although the system's documentation
describes the goal as positive and the scores as non-negative. Python's
recursion limit adds a further failure the model does not have (see
"## Left out").

## Model

| member | source | states |
|---|---|---|
| TruncatedCubic.AddCommutativeWithIdentity | src/win_prob/prob.py:29-43 | `+` on expressions is commutative and has the all-zero expression as a two-sided identity |
| TruncatedCubic.AddAssociative | src/win_prob/prob.py:29-43 | `+` on expressions is associative |
| TruncatedCubic.SubUndoesAdd | src/win_prob/prob.py:45-59 | `-` is the inverse of `+`: (a + b) − b = a, (a − b) + b = a, a − a = 0 |
| TruncatedCubic.EvalAddSub | src/win_prob/prob.py:29-59 | at every point x the value of a sum or difference is the sum or difference of the values |
| TruncatedCubic.EvalMulTruncates | src/win_prob/prob.py:61-78 | at every x the value of the truncated product equals the product of the values minus exactly x⁴ times the dropped degree 4..6 terms, so the product is correct up to degree 3 |
| TruncatedCubic.HighDegreeProductsVanish | src/win_prob/prob.py:61-78 | products of monomials whose degrees sum to 4 or more give the zero expression |
| TruncatedCubic.MulCommutativeWithIdentity | src/win_prob/prob.py:61-78 | the truncated product is commutative, the constant 1 is a two-sided identity and 0 absorbs |
| TruncatedCubic.PAndQ | src/win_prob/prob.py:149-159 | `p()` takes the value 1/2 + x and `q()` the value 1/2 − x at every x, and `p() + q()` is the constant 1 (q = 1 − p) |
| TruncatedCubic.PScalesConstant | src/win_prob/prob.py:149-159 | multiplying a constant c by `p()` gives c/2 + c·x, and by `q()` gives c/2 − c·x |
| TruncatedCubic.ReflectPIsQ | src/win_prob/prob.py:149-159 | substituting −x for x turns `p()` into `q()` |
| TruncatedCubic.EvalReflect | src/win_prob/prob.py:154-159 | a reflected expression takes at x the value the original takes at −x, which is how q's expression relates to p's |
| WinProb.StepIsWeightedSum | src/win_prob/prob.py:184 | the coefficient form used by `Solve` equals `p() * won + q() * lost` in the truncated algebra |
| WinProb.Prob | src/win_prob/prob.py:177-183 | fails exactly when win > goal or lose > goal, always with the over-goal error; a reached goal for the player gives the certain win 1 (even when the opponent is also at the goal); a reached goal for the opponent alone gives 0 |
| WinProb.ProbRecurrence | src/win_prob/prob.py:184 | below the goal on both sides, both successor calls succeed and the result is `p()·prob(win+1, lose) + q()·prob(win, lose+1)` |
| WinProb.ConstantTermIsProbability | src/win_prob/prob.py:180-184 | the constant coefficient (the win chance with a fair coin) lies in [0, 1] for every in-range score |
| WinProb.ComplementSymmetry | src/win_prob/prob.py:180-184 | the player's expression plus the opponent's expression with x replaced by −x is the constant 1: the two win chances always sum to one unless both players stand at the goal |
| WinProb.TiedScoreIsEven | src/win_prob/prob.py:180-184 | from any tied score below the goal a fair coin gives each player exactly 1/2 |
| WinProb.ComplementStep | src/win_prob/prob.py:184 | one application of the recurrence keeps the player's and the reflected opponent's expressions complementary |
| WinProb.Solver.constructor | src/win_prob/prob.py:162 | a fresh cache is empty and consistent |
| WinProb.Solver.CachedProb | src/win_prob/prob.py:162-184 | the cached call returns what the uncached `prob` returns; it keeps every earlier entry and every entry stays equal to the uncached value; afterwards the key is stored exactly when the call succeeded, so errors are never cached |
| ExactWinProb.ExactDegree | src/win_prob/prob.py:184 | the expansion of the win probability in x has no coefficient above the number of points that can still be played, so it is a polynomial |
| ExactWinProb.TruncationStep | src/win_prob/prob.py:184 | dropping degrees 4 and up commutes with one step of the recurrence, so truncating at every step loses nothing below degree 4 |
| ExactWinProb.TruncationEnds | src/win_prob/prob.py:180-183 | at a finished race the expansion truncates to the certain win or the certain loss |
| ExactWinProb.SolveIsTruncation | src/win_prob/prob.py:180-184 | each of the four coefficients the solver returns equals the corresponding coefficient of the untruncated recursion, which `ExactCoefIsExpansion` shows to be the expansion of the win probability |
| ExactWinProb.FairCoinConstantTerm | src/win_prob/prob.py:180-184 | the constant coefficient equals the exact probability of reaching the goal first when each point is won with probability 1/2 |
| ExactWinProb.WinChanceIsProbability | src/win_prob/prob.py:180-184 | for every point-win probability in [0, 1], the exact win probability defined by the same recursion lies in [0, 1] |
| ExactWinProb.HornerStep | src/win_prob/prob.py:184 | evaluated at any x, the untruncated coefficients below the goal combine the two successor values as 1/2·(a + b) + x·(a − b), which is p·a + q·b with p = 1/2 + x |
| ExactWinProb.HornerEnds | src/win_prob/prob.py:180-183 | at a finished race the untruncated polynomial is the constant 1 (player at the goal) or 0 (opponent at the goal) |
| ExactWinProb.ExactCoefIsExpansion | src/win_prob/prob.py:180-184 | for every x, the polynomial with the untruncated coefficients takes the value of the exact win probability at p = 1/2 + x, so those coefficients are its expansion around p = 1/2 |
| ExactWinProb.SolveIsTaylorCubic | src/win_prob/prob.py:13-15 | for every x, the exact win probability at p = 1/2 + x equals the value of the source's cubic at x plus x⁴ times the value of the dropped higher-degree terms: the cubic is the expansion around p = 1/2 truncated after degree 3 |

## Left out

- `Expr.__str__` and its nested `sign` helper (rendering coefficients as text) are
  not modelled. They are output formatting only.
- `Expr.float`, `FloatExpr` and its rendering are not modelled. They use
  floating point.
- The command-line front end (`cli.py`) is not modelled. It only parses
  arguments and prints.
- `@cache` is process-wide and unbounded in the source. The model gives each
  `Solver` object its own map. Eviction and sharing between callers are not
  modelled.
- The model does not prove that the truncated product is associative or that
  it distributes over `+`.
- WinProb.Solve: the recursion is written in coefficient form. It is tied to
  `p() * won + q() * lost` by `StepIsWeightedSum` and `ProbRecurrence`,
  which state the source's expression.
- `WinChance` is the win probability defined by conditioning on the next
  point. The model does not derive it from a probability space of point
  sequences.
- `prob` recurses once per point still to be played, taking the won-point
  branch first. When the goal is far from the score (`prob(0, 0, 600)`, or a
  large negative score), this exceeds Python's default recursion limit and
  raises `RecursionError`. `Prob`, `Solve` and `Solver.CachedProb` return a
  value for every such input and do not model that failure.
- The model follows the code, not the system's documentation, on integer
  ranges: it accepts any integer goal and scores. Only scores above the goal
  are rejected.
