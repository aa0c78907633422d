/** The three computer players: fixed search depths and evaluators, always
    searching as the maximising side for their own colour. */
module Players {
  import opened Utils
  import opened HexBoard
  import opened Scores
  import opened Evaluation
  import opened Ordering
  import opened Search
  import opened SearchEquivalence

  const EasyDepth: nat := 1
  const MediumDepth: nat := 2
  const HardDepth: nat := 3

  /** `eval_simple` as a search evaluator: the stone difference plus the
      noise drawn for the position. */
  function SimpleEvaluator(noise: (ValidBoard, Side) -> real): Evaluator {
    (b: ValidBoard, p: Side) => Fin(SimpleScore(b, p, noise(b, p)))
  }

  function ShortestPathEvaluator(): Evaluator {
    (b: ValidBoard, p: Side) => EvalShortestPath(b, p)
  }

  function AdvancedEvaluator(): Evaluator {
    (b: ValidBoard, p: Side) => EvalAdvanced(b, p)
  }

  function HeuristicOrder(): Option<Orderer> {
    Some((b: ValidBoard, ms: seq<Coord>, p: Side) => OrderMovesByHeuristic(b, ms, p))
  }

  /** The heuristic ordering permutes the moves it is given. */
  lemma HeuristicOrderPermutes()
    ensures PermutingOrder(HeuristicOrder())
  {
    forall b: ValidBoard, p: Side
      ensures multiset(HeuristicOrder().value(b, EmptyCells(b), p)) == multiset(EmptyCells(b))
    {
      assert HeuristicOrder().value(b, EmptyCells(b), p) == OrderMovesByHeuristic(b, EmptyCells(b), p);
    }
  }

  /** The easy player: depth-1 minimax over the noisy stone count. Its
      move is an empty cell of best value for that evaluator. */
  function EasyMove(b: ValidBoard, color: Side, noise: (ValidBoard, Side) -> real): (m: Option<Coord>)
    requires forall x: ValidBoard, s: Side :: -0.5 <= noise(x, s) <= 0.5
    ensures m.Some? ==> m.value in EmptyCells(b)
    ensures m.Some? ==>
              ChildValue(b, EasyDepth, true, color, SimpleEvaluator(noise), m.value)
              == Value(b, EasyDepth, true, color, SimpleEvaluator(noise))
  {
    MinimaxMoveOptimal(b, EasyDepth, true, color, SimpleEvaluator(noise));
    Minimax(b, EasyDepth, true, color, SimpleEvaluator(noise)).1
  }

  /** The medium player: depth-2 minimax over path costs. */
  function MediumMove(b: ValidBoard, color: Side): (m: Option<Coord>)
    ensures m.Some? ==> m.value in EmptyCells(b)
    ensures m.Some? ==>
              ChildValue(b, MediumDepth, true, color, ShortestPathEvaluator(), m.value)
              == Value(b, MediumDepth, true, color, ShortestPathEvaluator())
  {
    MinimaxMoveOptimal(b, MediumDepth, true, color, ShortestPathEvaluator());
    Minimax(b, MediumDepth, true, color, ShortestPathEvaluator()).1
  }

  /** The hard player: depth-3 alpha-beta over the advanced evaluation with
      heuristic move ordering. Its move is optimal for plain depth-3
      minimax over the same evaluator. */
  function HardMove(b: ValidBoard, color: Side): (m: Option<Coord>)
    ensures m.Some? ==> m.value in EmptyCells(b)
    ensures m.Some? ==>
              ChildValue(b, HardDepth, true, color, AdvancedEvaluator(), m.value)
              == Value(b, HardDepth, true, color, AdvancedEvaluator())
  {
    HeuristicOrderPermutes();
    AlphaBetaMoveOptimal(b, HardDepth, true, color, AdvancedEvaluator(), HeuristicOrder());
    AlphaBeta(b, HardDepth, NegInf, PosInf, true, color, AdvancedEvaluator(), HeuristicOrder()).1
  }

  /** The hard player's pruned search scores the position exactly as plain
      minimax does. */
  lemma HardScoreIsMinimax(b: ValidBoard, color: Side)
    ensures AlphaBeta(b, HardDepth, NegInf, PosInf, true, color, AdvancedEvaluator(), HeuristicOrder()).0
         == Minimax(b, HardDepth, true, color, AdvancedEvaluator()).0
  {
    HeuristicOrderPermutes();
    AlphaBetaEqualsMinimax(b, HardDepth, true, color, AdvancedEvaluator(), HeuristicOrder());
  }
}
