/**
 * The recursive win-probability solver.
 *
 * `Solve(win, lose, goal)` is the probability, as a truncated cubic in
 * x = p − 1/2, that a player who has `win` points against `lose` reaches
 * `goal` points first when each point is won with probability p. `Prob` adds
 * the range check that rejects a score above the goal.
 */
module WinProb {
  import opened TruncatedCubic

  /** The one error the solver raises: a score component above the goal. */
  datatype ProbError = WinOrLoseOverGoal

  datatype Result<T> = Success(value: T) | Failure(error: ProbError)

  /** The number of points a race is played to when the caller names none. */
  const DefaultGoal: int := 30

  /**
   * Conditioning on the next point: p·won + q·lost with p = 1/2 + x and
   * q = 1/2 − x, written out coefficient by coefficient. Degree k gets the
   * average of the two degree-k coefficients plus the difference of the two
   * degree-(k − 1) ones; the degree-3 difference would land in degree 4 and
   * is dropped, as the truncated product drops it.
   */
  function Step(won: Expr, lost: Expr): Expr
  {
    Expr(0.5 * (won.zero + lost.zero),
         0.5 * (won.one + lost.one) + (won.zero - lost.zero),
         0.5 * (won.two + lost.two) + (won.one - lost.one),
         0.5 * (won.three + lost.three) + (won.two - lost.two))
  }

  /** `Step` is exactly `p() * won + q() * lost` in the truncated algebra. */
  lemma StepIsWeightedSum(won: Expr, lost: Expr)
    ensures Step(won, lost) == Add(Mul(P(), won), Mul(Q(), lost))
  {
  }

  /**
   * The recursion of `prob` once the range check has passed: a finished race
   * is certain, otherwise condition on the next point.
   */
  function Solve(win: int, lose: int, goal: int): Expr
    requires win <= goal && lose <= goal
    decreases (goal - win) + (goal - lose)
  {
    if win == goal then One()
    else if lose == goal then Zero()
    else Step(Solve(win + 1, lose, goal), Solve(win, lose + 1, goal))
  }

  /**
   * `prob(win, lose, goal)`: fails exactly when a score component exceeds the
   * goal; a reached goal for the player is a certain win, and checked before
   * a reached goal for the opponent, which is a certain loss.
   */
  function Prob(win: int, lose: int, goal: int := DefaultGoal): (r: Result<Expr>)
    ensures r.Failure? <==> win > goal || lose > goal
    ensures r.Failure? ==> r.error == WinOrLoseOverGoal
    ensures win == goal && lose <= goal ==> r == Success(One())
    ensures lose == goal && win < goal ==> r == Success(Zero())
  {
    if win > goal || lose > goal then Failure(WinOrLoseOverGoal)
    else Success(Solve(win, lose, goal))
  }

  /** Below the goal on both sides, `prob` is p times the next state after a won point plus q times the next state after a lost one. */
  lemma ProbRecurrence(win: int, lose: int, goal: int)
    requires win < goal && lose < goal
    ensures Prob(win + 1, lose, goal).Success? && Prob(win, lose + 1, goal).Success?
    ensures Prob(win, lose, goal)
         == Success(Add(Mul(P(), Prob(win + 1, lose, goal).value), Mul(Q(), Prob(win, lose + 1, goal).value)))
  {
    StepIsWeightedSum(Solve(win + 1, lose, goal), Solve(win, lose + 1, goal));
  }

  /** The constant term, the win probability of a fair coin, lies in [0, 1]. */
  lemma {:induction false} ConstantTermIsProbability(win: int, lose: int, goal: int)
    requires win <= goal && lose <= goal
    ensures 0.0 <= Solve(win, lose, goal).zero <= 1.0
    decreases (goal - win) + (goal - lose)
  {
    if win < goal && lose < goal {
      ConstantTermIsProbability(win + 1, lose, goal);
      ConstantTermIsProbability(win, lose + 1, goal);
    }
  }

  /**
   * Swapping the two players and replacing p by q = 1 − p (x by −x) gives the
   * opponent's win probability; the two always add up to 1 unless both
   * players already stand at the goal.
   */
  lemma {:induction false} ComplementSymmetry(win: int, lose: int, goal: int)
    requires win <= goal && lose <= goal
    requires win < goal || lose < goal
    ensures Add(Solve(win, lose, goal), Reflect(Solve(lose, win, goal))) == One()
    decreases (goal - win) + (goal - lose)
  {
    if win < goal && lose < goal {
      ComplementSymmetry(win + 1, lose, goal);
      ComplementSymmetry(win, lose + 1, goal);
      ComplementStep(Solve(win + 1, lose, goal), Solve(win, lose + 1, goal),
                     Solve(lose + 1, win, goal), Solve(lose, win + 1, goal));
    }
  }

  /**
   * At a tied score below the goal the two players are interchangeable, so
   * with a fair coin each wins with probability 1/2 (for instance from 0–0
   * in a race to 2).
   */
  lemma TiedScoreIsEven(n: int, goal: int)
    requires n < goal
    ensures Solve(n, n, goal).zero == 0.5
  {
    ComplementSymmetry(n, n, goal);
  }

  /** One step of the recurrence keeps the two players' probabilities complementary. */
  lemma ComplementStep(a: Expr, b: Expr, c: Expr, d: Expr)
    requires Add(a, Reflect(d)) == One() && Add(b, Reflect(c)) == One()
    ensures Add(Step(a, b), Reflect(Step(c, d))) == One()
  {
  }

  /**
   * `@cache` on `prob`: a solver that remembers every value it has returned,
   * keyed by (win, lose, goal). Errors are raised again on every call and
   * never stored.
   */
  class Solver {
    var memo: map<(int, int, int), Expr>

    /** Every stored entry is in range and equals the uncached solver's value. */
    ghost predicate Valid()
      reads this
    {
      forall key | key in memo :: key.0 <= key.2 && key.1 <= key.2 && memo[key] == Solve(key.0, key.1, key.2)
    }

    constructor ()
      ensures Valid() && memo == map[]
    {
      memo := map[];
    }

    /**
     * The cached `prob`: returns what the uncached function returns, keeps
     * every earlier entry, and afterwards holds the key exactly when the call
     * succeeded.
     */
    method CachedProb(win: int, lose: int, goal: int := DefaultGoal) returns (r: Result<Expr>)
      requires Valid()
      modifies this
      ensures Valid()
      ensures r == Prob(win, lose, goal)
      ensures old(memo).Keys <= memo.Keys
      ensures (win, lose, goal) in memo <==> r.Success?
      decreases if win <= goal && lose <= goal then (goal - win) + (goal - lose) else 0
    {
      var key := (win, lose, goal);
      if key in memo {
        return Success(memo[key]);
      }
      if win > goal || lose > goal {
        return Failure(WinOrLoseOverGoal);
      }
      var value: Expr;
      if win == goal {
        value := One();
      } else if lose == goal {
        value := Zero();
      } else {
        var won := CachedProb(win + 1, lose, goal);
        var lost := CachedProb(win, lose + 1, goal);
        value := Add(Mul(P(), won.value), Mul(Q(), lost.value));
        StepIsWeightedSum(won.value, lost.value);
      }
      memo := memo[key := value];
      r := Success(value);
    }
  }
}
