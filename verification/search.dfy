/** Fixed-depth game-tree search: plain minimax and alpha-beta with an
    optional move-ordering function. Both score positions from the point
    of view of `player`, the side that maximises. */
module Search {
  import opened Utils
  import opened HexBoard
  import opened Connectivity
  import opened Scores

  /** `eval_fn(board, player)`: a deterministic evaluator. */
  type Evaluator = (ValidBoard, Side) -> Score

  /** `move_order_fn(board, moves, player)`. */
  type Orderer = (ValidBoard, seq<Coord>, Side) -> seq<Coord>

  /** The side to move: `player` at a maximising node, else its opponent. */
  function Mover(maximizing: bool, player: Side): Side {
    if maximizing then player else Opponent(player)
  }

  /** `child = board.clone(); child.place(r, c, current)`. */
  function Child(b: ValidBoard, m: Coord, s: Side): ValidBoard {
    Place(Clone(b), m, s).1
  }

  /** A child is the parent with exactly the chosen empty cell filled by
      the mover; the parent itself is a value and is left as it was. */
  lemma ChildPlacesMover(b: ValidBoard, m: Coord, s: Side)
    requires m in EmptyCells(b)
    ensures Child(b, m, s).size == b.size && At(Child(b, m, s), m) == s
    ensures forall y :: InBounds(b, y) && y != m ==> At(Child(b, m, s), y) == At(b, y)
  {
  }

  function WinScore(depth: nat): Score {
    Fin((1000 + depth) as real)
  }

  function LossScore(depth: nat): Score {
    Fin((-1000 - depth) as real)
  }

  /** The checks made before a node is expanded, in the source's order:
      a win for `player`, then a win for its opponent, then the depth
      limit, then a full board. */
  function Terminal(b: ValidBoard, depth: nat, player: Side, eval: Evaluator): (t: Option<Score>)
    ensures t.None? <==> !CheckWin(b, player) && !CheckWin(b, Opponent(player)) && depth > 0 && |EmptyCells(b)| > 0
    ensures CheckWin(b, player) ==> t == Some(WinScore(depth))
    ensures !CheckWin(b, player) && CheckWin(b, Opponent(player)) ==> t == Some(LossScore(depth))
    ensures !CheckWin(b, player) && !CheckWin(b, Opponent(player)) && (depth == 0 || |EmptyCells(b)| == 0) ==>
              t == Some(eval(b, player))
  {
    if CheckWin(b, player) then Some(WinScore(depth))
    else if CheckWin(b, Opponent(player)) then Some(LossScore(depth))
    else if depth == 0 then Some(eval(b, player))
    else if |EmptyCells(b)| == 0 then Some(eval(b, player))
    else None
  }

  // ---------------------------------------------------------------------
  // The game-tree value

  function MaxOf(s: seq<Score>): (m: Score)
    ensures forall i :: 0 <= i < |s| ==> Le(s[i], m)
    ensures |s| == 0 ==> m == NegInf
    ensures |s| > 0 ==> exists i :: 0 <= i < |s| && s[i] == m
  {
    if |s| == 0 then NegInf
    else
      var rest := MaxOf(s[1..]);
      assert forall i :: 1 <= i < |s| ==> s[i] == s[1..][i - 1];
      Max(s[0], rest)
  }

  function MinOf(s: seq<Score>): (m: Score)
    ensures forall i :: 0 <= i < |s| ==> Le(m, s[i])
    ensures |s| == 0 ==> m == PosInf
    ensures |s| > 0 ==> exists i :: 0 <= i < |s| && s[i] == m
  {
    if |s| == 0 then PosInf
    else
      var rest := MinOf(s[1..]);
      assert forall i :: 1 <= i < |s| ==> s[i] == s[1..][i - 1];
      Min(s[0], rest)
  }

  /** The score a node starts from before any child is seen. */
  function Start(maximizing: bool): Score {
    if maximizing then NegInf else PosInf
  }

  /** The strict comparison that replaces the best score so far. */
  predicate Improves(maximizing: bool, best: Score, score: Score) {
    if maximizing then Lt(best, score) else Lt(score, best)
  }

  function Better(maximizing: bool, a: Score, c: Score): Score {
    if maximizing then Max(a, c) else Min(a, c)
  }

  function Best(maximizing: bool, s: seq<Score>): Score {
    if maximizing then MaxOf(s) else MinOf(s)
  }

  /** The minimax value of a position: the terminal score at a leaf,
      otherwise the best child value for the side to move. */
  function Value(b: ValidBoard, depth: nat, maximizing: bool, player: Side, eval: Evaluator): Score
    decreases depth, 1
  {
    match Terminal(b, depth, player, eval)
    case Some(s) => s
    case None => Best(maximizing, Values(b, depth, maximizing, player, eval, EmptyCells(b)))
  }

  /** The values of the children reached by `moves`, in order. */
  function Values(b: ValidBoard, depth: nat, maximizing: bool, player: Side, eval: Evaluator, moves: seq<Coord>)
    : (vs: seq<Score>)
    requires depth > 0
    ensures |vs| == |moves|
    decreases depth, 0, |moves|
  {
    if |moves| == 0 then []
    else
      [Value(Child(b, moves[0], Mover(maximizing, player)), depth - 1, !maximizing, player, eval)]
        + Values(b, depth, maximizing, player, eval, moves[1..])
  }

  /** The value of the child reached by `m`. */
  function ChildValue(b: ValidBoard, depth: nat, maximizing: bool, player: Side, eval: Evaluator, m: Coord): Score
    requires depth > 0
  {
    Value(Child(b, m, Mover(maximizing, player)), depth - 1, !maximizing, player, eval)
  }

  lemma {:induction false} ValuesAt(b: ValidBoard, depth: nat, maximizing: bool, player: Side, eval: Evaluator,
                                    moves: seq<Coord>)
    requires depth > 0
    ensures forall i :: 0 <= i < |moves| ==>
              Values(b, depth, maximizing, player, eval, moves)[i] == ChildValue(b, depth, maximizing, player, eval, moves[i])
    decreases |moves|
  {
    if |moves| > 0 {
      ValuesAt(b, depth, maximizing, player, eval, moves[1..]);
      var vs := Values(b, depth, maximizing, player, eval, moves);
      forall i | 0 <= i < |moves|
        ensures vs[i] == ChildValue(b, depth, maximizing, player, eval, moves[i])
      {
        if i > 0 {
          assert moves[1..][i - 1] == moves[i];
        }
      }
    }
  }

  // ---------------------------------------------------------------------
  // minimax

  /** `m` is the first of `moves` whose child value is `score`. */
  predicate FirstReaching(moves: seq<Coord>, vs: seq<Score>, m: Coord, score: Score)
    requires |vs| == |moves|
  {
    exists k :: 0 <= k < |moves| && moves[k] == m && vs[k] == score && forall j :: 0 <= j < k ==> vs[j] != score
  }

  /** How a scan that starts from `best`/`bestMove` ends over children
      with values `vs`: with the better of `best` and the best child value;
      the move changes exactly when that strictly beats `best`, and is then
      the first move reaching it. */
  predicate ScanChoice(maximizing: bool, moves: seq<Coord>, vs: seq<Score>, best: Score, bestMove: Option<Coord>,
                       r: (Score, Option<Coord>))
    requires |vs| == |moves|
  {
    && r.0 == Better(maximizing, best, Best(maximizing, vs))
    && (Improves(maximizing, best, r.0) ==> r.1.Some? && FirstReaching(moves, vs, r.1.value, r.0))
    && (!Improves(maximizing, best, r.0) ==> r == (best, bestMove))
  }

  /** `minimax(board, depth, maximizing, player, eval_fn)`. */
  function Minimax(b: ValidBoard, depth: nat, maximizing: bool, player: Side, eval: Evaluator)
    : (r: (Score, Option<Coord>))
    ensures r.0 == Value(b, depth, maximizing, player, eval)
    ensures CheckWin(b, player) ==> r == (WinScore(depth), None)
    ensures !CheckWin(b, player) && CheckWin(b, Opponent(player)) ==> r == (LossScore(depth), None)
    ensures !CheckWin(b, player) && !CheckWin(b, Opponent(player)) && (depth == 0 || |EmptyCells(b)| == 0) ==>
              r == (eval(b, player), None)
    ensures Terminal(b, depth, player, eval).Some? ==> r.1 == None
    ensures Terminal(b, depth, player, eval).None? ==>
              ScanChoice(maximizing, EmptyCells(b), Values(b, depth, maximizing, player, eval, EmptyCells(b)),
                         Start(maximizing), None, r)
    decreases depth, 1
  {
    match Terminal(b, depth, player, eval)
    case Some(s) => (s, None)
    case None =>
      var r := MinimaxScan(b, depth, maximizing, player, eval, EmptyCells(b), Start(maximizing), None);
      StartNeutral(maximizing, r.0);
      StartNeutral(maximizing, Best(maximizing, Values(b, depth, maximizing, player, eval, EmptyCells(b))));
      r
  }

  /** The starting score is neutral for `Better`. */
  lemma StartNeutral(maximizing: bool, x: Score)
    ensures Better(maximizing, Start(maximizing), x) == x
    ensures !Improves(maximizing, Start(maximizing), x) <==> x == Start(maximizing)
  {
  }

  /** The loop over the empty cells: keep the first child whose score
      strictly beats the best so far. */
  function MinimaxScan(b: ValidBoard, depth: nat, maximizing: bool, player: Side, eval: Evaluator,
                       moves: seq<Coord>, best: Score, bestMove: Option<Coord>)
    : (r: (Score, Option<Coord>))
    requires depth > 0
    ensures ScanChoice(maximizing, moves, Values(b, depth, maximizing, player, eval, moves), best, bestMove, r)
    decreases depth, 0, |moves|
  {
    if |moves| == 0 then (best, bestMove)
    else
      var m := moves[0];
      var score := Minimax(Child(b, m, Mover(maximizing, player)), depth - 1, !maximizing, player, eval).0;
      var r := if Improves(maximizing, best, score)
        then MinimaxScan(b, depth, maximizing, player, eval, moves[1..], score, Some(m))
        else MinimaxScan(b, depth, maximizing, player, eval, moves[1..], best, bestMove);
      ScanStep(b, depth, maximizing, player, eval, moves, best, bestMove, score, r);
      r
  }

  /** Folding a first score in front of the rest: taking the better of
      `best` and everything is taking the better of the updated best and
      the rest. */
  lemma FoldFront(maximizing: bool, best: Score, score: Score, rest: seq<Score>)
    ensures var best' := if Improves(maximizing, best, score) then score else best;
            Better(maximizing, best, Best(maximizing, [score] + rest)) == Better(maximizing, best', Best(maximizing, rest))
  {
    assert ([score] + rest)[1..] == rest;
  }

  /** The first position reaching a score, carried from the rest of the
      list to the whole list. */
  lemma FirstReachingFront(moves: seq<Coord>, vs: seq<Score>, m: Coord, score: Score)
    requires |moves| == |vs| > 0
    requires FirstReaching(moves[1..], vs[1..], m, score) && vs[0] != score
    ensures FirstReaching(moves, vs, m, score)
  {
    var k :| 0 <= k < |moves[1..]| && moves[1..][k] == m && vs[1..][k] == score
             && forall j :: 0 <= j < k ==> vs[1..][j] != score;
    assert moves[k + 1] == m && vs[k + 1] == score;
    forall j | 0 <= j < k + 1
      ensures vs[j] != score
    {
      if j > 0 {
        assert vs[j] == vs[1..][j - 1];
      }
    }
  }

  /** One step of the scan: the first child's score folded in front of the
      rest. */
  lemma ScanStep(b: ValidBoard, depth: nat, maximizing: bool, player: Side, eval: Evaluator,
                 moves: seq<Coord>, best: Score, bestMove: Option<Coord>, score: Score, r: (Score, Option<Coord>))
    requires depth > 0 && |moves| > 0
    requires score == ChildValue(b, depth, maximizing, player, eval, moves[0])
    requires var improves := Improves(maximizing, best, score);
             ScanChoice(maximizing, moves[1..], Values(b, depth, maximizing, player, eval, moves[1..]),
                        if improves then score else best, if improves then Some(moves[0]) else bestMove, r)
    ensures ScanChoice(maximizing, moves, Values(b, depth, maximizing, player, eval, moves), best, bestMove, r)
  {
    var vs := Values(b, depth, maximizing, player, eval, moves);
    var rest := Values(b, depth, maximizing, player, eval, moves[1..]);
    assert vs == [score] + rest;
    assert vs[1..] == rest;
    FoldFront(maximizing, best, score, rest);
    var best' := if Improves(maximizing, best, score) then score else best;
    if Improves(maximizing, best', r.0) {
      FirstReachingFront(moves, vs, r.1.value, r.0);
    } else if Improves(maximizing, best, r.0) {
      // the first child's score is the result: position 0 reaches it
      assert r == (score, Some(moves[0])) && vs[0] == score;
    }
  }

  /** A scan from the starting score that ends with a move names a
      position whose value is the result. */
  lemma ChoiceHasWitness(maximizing: bool, moves: seq<Coord>, vs: seq<Score>, r: (Score, Option<Coord>))
    returns (k: nat)
    requires |vs| == |moves| && ScanChoice(maximizing, moves, vs, Start(maximizing), None, r) && r.1.Some?
    ensures k < |moves| && moves[k] == r.1.value && vs[k] == r.0
  {
    k :| 0 <= k < |moves| && moves[k] == r.1.value && vs[k] == r.0 && forall j :: 0 <= j < k ==> vs[j] != r.0;
  }

  /** A scan from the starting score ends with a move if any value beats
      the starting score. */
  lemma ChoiceFindsMove(maximizing: bool, moves: seq<Coord>, vs: seq<Score>, r: (Score, Option<Coord>), i: nat)
    requires |vs| == |moves| && ScanChoice(maximizing, moves, vs, Start(maximizing), None, r)
    requires i < |vs| && Improves(maximizing, Start(maximizing), vs[i])
    ensures r.1.Some?
  {
    StartNeutral(maximizing, Best(maximizing, vs));
    StartNeutral(maximizing, r.0);
    if maximizing {
      assert Le(vs[i], MaxOf(vs));
    } else {
      assert Le(MinOf(vs), vs[i]);
    }
  }

  /** The move minimax returns is an empty cell whose child has the
      returned score. */
  lemma MinimaxMoveOptimal(b: ValidBoard, depth: nat, maximizing: bool, player: Side, eval: Evaluator)
    ensures var r := Minimax(b, depth, maximizing, player, eval);
            r.1.Some? ==>
              && depth > 0
              && r.1.value in EmptyCells(b)
              && ChildValue(b, depth, maximizing, player, eval, r.1.value) == r.0
  {
    var r := Minimax(b, depth, maximizing, player, eval);
    if r.1.Some? {
      var moves := EmptyCells(b);
      var vs := Values(b, depth, maximizing, player, eval, moves);
      ValuesAt(b, depth, maximizing, player, eval, moves);
      var k := ChoiceHasWitness(maximizing, moves, vs, r);
    }
  }

  /** At a non-terminal node a move is returned whenever some child
      scores above `-inf` (maximising) or below `inf` (minimising). */
  lemma MinimaxFindsMove(b: ValidBoard, depth: nat, maximizing: bool, player: Side, eval: Evaluator, m: Coord)
    requires Terminal(b, depth, player, eval).None? && m in EmptyCells(b)
    requires Improves(maximizing, Start(maximizing), ChildValue(b, depth, maximizing, player, eval, m))
    ensures Minimax(b, depth, maximizing, player, eval).1.Some?
  {
    var moves := EmptyCells(b);
    var vs := Values(b, depth, maximizing, player, eval, moves);
    ValuesAt(b, depth, maximizing, player, eval, moves);
    var i :| 0 <= i < |moves| && moves[i] == m;
    ChoiceFindsMove(maximizing, moves, vs, Minimax(b, depth, maximizing, player, eval), i);
  }

  /** A move that wins on the spot for `player` gives its child the win
      score one level down, so a maximising node is worth at least that. */
  lemma ImmediateWinValued(b: ValidBoard, depth: nat, player: Side, eval: Evaluator, m: Coord)
    requires Terminal(b, depth, player, eval).None? && m in EmptyCells(b)
    requires CheckWin(Child(b, m, player), player)
    ensures Le(WinScore(depth - 1), Value(b, depth, true, player, eval))
  {
    var moves := EmptyCells(b);
    var vs := Values(b, depth, true, player, eval, moves);
    ValuesAt(b, depth, true, player, eval, moves);
    var i :| 0 <= i < |moves| && moves[i] == m;
    assert vs[i] == WinScore(depth - 1);
    assert Le(vs[i], MaxOf(vs));
  }

  // ---------------------------------------------------------------------
  // alphabeta

  /** The moves scanned at a node: the empty cells, passed through the
      ordering function when there is one (always for the root `player`). */
  function ScanOrder(b: ValidBoard, player: Side, order: Option<Orderer>): seq<Coord> {
    var empty := EmptyCells(b);
    if order.Some? then order.value(b, empty, player) else empty
  }

  /** `alphabeta(board, depth, alpha, beta, maximizing, player, eval_fn,
      move_order_fn)`. */
  function AlphaBeta(b: ValidBoard, depth: nat, alpha: Score, beta: Score, maximizing: bool, player: Side,
                     eval: Evaluator, order: Option<Orderer>)
    : (r: (Score, Option<Coord>))
    ensures CheckWin(b, player) ==> r == (WinScore(depth), None)
    ensures !CheckWin(b, player) && CheckWin(b, Opponent(player)) ==> r == (LossScore(depth), None)
    ensures Terminal(b, depth, player, eval).Some? ==> r == (Value(b, depth, maximizing, player, eval), None)
    ensures r.1.Some? ==> r.1.value in ScanOrder(b, player, order)
    decreases depth, 1
  {
    match Terminal(b, depth, player, eval)
    case Some(s) => (s, None)
    case None =>
      AlphaBetaScan(b, depth, alpha, beta, maximizing, player, eval, order,
                    ScanOrder(b, player, order), Start(maximizing), None)
  }

  /** The loop over the ordered moves: keep the first strict improvement,
      raise alpha (maximising) or lower beta (minimising) to the best score
      so far, and stop as soon as `alpha >= beta`. */
  function AlphaBetaScan(b: ValidBoard, depth: nat, alpha: Score, beta: Score, maximizing: bool, player: Side,
                         eval: Evaluator, order: Option<Orderer>, moves: seq<Coord>, best: Score, bestMove: Option<Coord>)
    : (r: (Score, Option<Coord>))
    requires depth > 0
    ensures r.1.Some? ==> r.1 == bestMove || r.1.value in moves
    ensures maximizing ==> Le(best, r.0)
    ensures !maximizing ==> Le(r.0, best)
    decreases depth, 0, |moves|
  {
    if |moves| == 0 then (best, bestMove)
    else
      var m := moves[0];
      var score := AlphaBeta(Child(b, m, Mover(maximizing, player)), depth - 1, alpha, beta, !maximizing,
                             player, eval, order).0;
      var improves := Improves(maximizing, best, score);
      var best' := if improves then score else best;
      var move' := if improves then Some(m) else bestMove;
      var w := NextWindow(maximizing, alpha, beta, best');
      if Le(w.1, w.0) then (best', move')
      else AlphaBetaScan(b, depth, w.0, w.1, maximizing, player, eval, order, moves[1..], best', move')
  }

  /** The window after a child: a maximising node raises alpha to the best
      score so far, a minimising node lowers beta to it. The window only
      ever narrows. */
  function NextWindow(maximizing: bool, alpha: Score, beta: Score, best: Score): (w: (Score, Score))
    ensures Le(alpha, w.0) && Le(w.1, beta)
    ensures maximizing ==> w.1 == beta && Le(best, w.0) && (w.0 == alpha || w.0 == best)
    ensures !maximizing ==> w.0 == alpha && Le(w.1, best) && (w.1 == beta || w.1 == best)
  {
    if maximizing then (Max(alpha, best), beta) else (alpha, Min(beta, best))
  }
}
