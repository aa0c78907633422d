/** The three board evaluators. Scores are from the point of view of the
    side passed in: positive is good for it. */
module Evaluation {
  import opened Utils
  import opened HexBoard
  import opened Connectivity
  import opened PathCost
  import opened Scores

  /** The value `eval_simple` returns for a given noise draw. */
  function SimpleScore(b: ValidBoard, p: Side, noise: real): real {
    (StoneCount(b, p) - StoneCount(b, Opponent(p))) as real + noise
  }

  /** `eval_simple`: own stones minus opponent stones, plus a noise term.
      The source draws the noise from `random.uniform(-0.5, 0.5)`; here it
      is a parameter. The nested loop is proved to count the same stones
      as the row-major cell lists. */
  method EvalSimple(b: ValidBoard, p: Side, noise: real) returns (score: real)
    requires -0.5 <= noise <= 0.5
    ensures score == SimpleScore(b, p, noise)
    ensures (StoneCount(b, p) - StoneCount(b, Opponent(p))) as real - 0.5 <= score
    ensures score <= (StoneCount(b, p) - StoneCount(b, Opponent(p))) as real + 0.5
  {
    var opp := Opponent(p);
    var mine, theirs := 0, 0;
    var r := 0;
    while r < b.size
      invariant 0 <= r <= b.size
      invariant mine + |CellsFrom(b, p, r)| == StoneCount(b, p)
      invariant theirs + |CellsFrom(b, opp, r)| == StoneCount(b, opp)
    {
      var c := 0;
      while c < b.size
        invariant 0 <= c <= b.size
        invariant mine + |RowCellsFrom(b, p, r, c)| + |CellsFrom(b, p, r + 1)| == StoneCount(b, p)
        invariant theirs + |RowCellsFrom(b, opp, r, c)| + |CellsFrom(b, opp, r + 1)| == StoneCount(b, opp)
      {
        if b.grid[r][c] == p {
          mine := mine + 1;
        } else if b.grid[r][c] == opp {
          theirs := theirs + 1;
        }
        c := c + 1;
      }
      r := r + 1;
    }
    score := (mine - theirs) as real + noise;
  }

  /** `opp_cost - my_cost` on path costs, with `inf` for `Unreachable`.
      Python gives NaN for `inf - inf`; this model gives 0 there. */
  function CostDifference(theirs: Cost, mine: Cost): (r: Score)
    ensures r == PosInf <==> theirs.Unreachable? && mine.Finite?
    ensures r == NegInf <==> theirs.Finite? && mine.Unreachable?
    ensures theirs.Finite? && mine.Finite? ==> r == Fin(theirs.n as real - mine.n as real)
    ensures theirs.Unreachable? && mine.Unreachable? ==> r == Fin(0.0)
  {
    match (theirs, mine)
    case (Finite(t), Finite(m)) => Fin(t as real - m as real)
    case (Unreachable, Finite(_)) => PosInf
    case (Finite(_), Unreachable) => NegInf
    case (Unreachable, Unreachable) => Fin(0.0)
  }

  /** `eval_shortest_path`: how many more empty cells the opponent needs
      than the side itself. It is `+inf` exactly when only the opponent is
      cut off, `-inf` exactly when only the side itself is, and zero when
      both are; the remaining case is EvalShortestPathFinite below. */
  function EvalShortestPath(b: ValidBoard, p: Side): (r: Score)
    ensures r == PosInf <==> Blocked(b, Opponent(p)) && !Blocked(b, p)
    ensures r == NegInf <==> Blocked(b, p) && !Blocked(b, Opponent(p))
    ensures Blocked(b, p) && Blocked(b, Opponent(p)) ==> r == Fin(0.0)
  {
    CostDifference(ShortestPathCost(b, Opponent(p)), ShortestPathCost(b, p))
  }

  /** When both sides can still connect, the evaluation is the difference
      of their least numbers of cells still to fill. */
  lemma EvalShortestPathFinite(b: ValidBoard, p: Side, mine: nat, theirs: nat)
    requires ShortestFar(b, p, mine) && ShortestFar(b, Opponent(p), theirs)
    ensures EvalShortestPath(b, p) == Fin(theirs as real - mine as real)
  {
    ShortestFarUnique(b, p, mine);
    ShortestFarUnique(b, Opponent(p), theirs);
    EvalFromCosts(b, p, mine, theirs);
  }

  /** The same fact stated over the computed costs, kept apart so that the
      route quantifiers stay out of its proof. */
  lemma EvalFromCosts(b: ValidBoard, p: Side, mine: nat, theirs: nat)
    requires ShortestPathCost(b, p) == Finite(mine) && ShortestPathCost(b, Opponent(p)) == Finite(theirs)
    ensures EvalShortestPath(b, p) == Fin(theirs as real - mine as real)
  {
  }

  /** The path evaluation is zero-sum between the two sides. */
  lemma EvalShortestPathAntisymmetric(b: ValidBoard)
    ensures EvalShortestPath(b, Red) == Negate(EvalShortestPath(b, Blue))
  {
  }

  /** `eval_advanced`: the path difference plus 0.3 per stone of
      connected-to-start advantage. */
  function EvalAdvanced(b: ValidBoard, p: Side): (r: Score)
    ensures r.Fin? <==> EvalShortestPath(b, p).Fin?
    ensures !r.Fin? ==> r == EvalShortestPath(b, p)
    ensures r.Fin? ==> r.v - EvalShortestPath(b, p).v
                       == (CountConnectedToStart(b, p) - CountConnectedToStart(b, Opponent(p))) as real * 0.3
  {
    var pathScore := EvalShortestPath(b, p);
    var bonus := (CountConnectedToStart(b, p) - CountConnectedToStart(b, Opponent(p))) as real * 0.3;
    AddReal(pathScore, bonus)
  }

  /** The connectivity bonus is at most 0.3 per own stone and at least
      -0.3 per opponent stone. */
  lemma AdvancedBonusBounded(b: ValidBoard, p: Side)
    requires EvalAdvanced(b, p).Fin?
    ensures var gap := EvalAdvanced(b, p).v - EvalShortestPath(b, p).v;
            -0.3 * StoneCount(b, Opponent(p)) as real <= gap <= 0.3 * StoneCount(b, p) as real
  {
    CountAtMostStones(b, p);
    CountAtMostStones(b, Opponent(p));
  }

  /** The advanced evaluation is zero-sum between the two sides. */
  lemma EvalAdvancedAntisymmetric(b: ValidBoard)
    ensures EvalAdvanced(b, Red) == Negate(EvalAdvanced(b, Blue))
  {
    EvalShortestPathAntisymmetric(b);
  }
}
