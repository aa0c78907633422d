/** Alpha-beta pruning computes the minimax value. Called with the window
    `(lo, hi)`, the pruned search returns a score that agrees with the
    game-tree value once both are pulled into the window; with the full
    window `(-inf, inf)` the two are equal. The move ordering may be any
    function that permutes the empty cells. */
module SearchEquivalence {
  import opened Utils
  import opened HexBoard
  import opened Scores
  import opened Search

  /** The ordering function, if any, returns the empty cells it is given
      in some order, each exactly once. */
  ghost predicate PermutingOrder(order: Option<Orderer>) {
    order.Some? ==>
      forall b: ValidBoard, p: Side :: multiset(order.value(b, EmptyCells(b), p)) == multiset(EmptyCells(b))
  }

  // ---------------------------------------------------------------------
  // Window arithmetic

  lemma LeAntisymmetric(a: Score, c: Score)
    requires Le(a, c) && Le(c, a)
    ensures a == c
  {
  }

  /** Clamping commutes with taking the larger of two scores. */
  lemma ClampMax(lo: Score, hi: Score, x: Score, y: Score)
    requires Le(lo, hi)
    ensures Clamp(lo, hi, Max(x, y)) == Max(Clamp(lo, hi, x), Clamp(lo, hi, y))
  {
  }

  lemma ClampMin(lo: Score, hi: Score, x: Score, y: Score)
    requires Le(lo, hi)
    ensures Clamp(lo, hi, Min(x, y)) == Min(Clamp(lo, hi, x), Clamp(lo, hi, y))
  {
  }

  /** A best-so-far below `hi` can be folded into the lower bound. */
  lemma ClampShiftMax(lo: Score, hi: Score, best: Score, y: Score)
    requires Lt(Max(lo, best), hi)
    ensures Clamp(lo, hi, Max(best, y)) == Clamp(Max(lo, best), hi, y)
  {
  }

  /** A best-so-far above `lo` can be folded into the upper bound. */
  lemma ClampShiftMin(lo: Score, hi: Score, best: Score, y: Score)
    requires Lt(lo, Min(hi, best))
    ensures Clamp(lo, hi, Min(best, y)) == Clamp(lo, Min(hi, best), y)
  {
  }

  /** The best-so-far update of a maximising scan is `max`, and folding it
      into alpha is folding it into the lower bound. */
  lemma MaxUpdate(lo: Score, hi: Score, best: Score, score: Score)
    ensures (if Improves(true, best, score) then score else best) == Max(best, score)
    ensures NextWindow(true, Max(lo, best), hi, Max(best, score)) == (Max(lo, Max(best, score)), hi)
  {
  }

  lemma MinUpdate(lo: Score, hi: Score, best: Score, score: Score)
    ensures (if Improves(false, best, score) then score else best) == Min(best, score)
    ensures NextWindow(false, lo, Min(hi, best), Min(best, score)) == (lo, Min(hi, Min(best, score)))
  {
  }

  /** The best child value is the first child's value against the best of
      the rest. */
  lemma BestFront(b: ValidBoard, depth: nat, maximizing: bool, player: Side, eval: Evaluator, moves: seq<Coord>)
    requires depth > 0 && |moves| > 0
    ensures Best(maximizing, Values(b, depth, maximizing, player, eval, moves))
         == Better(maximizing, ChildValue(b, depth, maximizing, player, eval, moves[0]),
                   Best(maximizing, Values(b, depth, maximizing, player, eval, moves[1..])))
  {
    var vs := Values(b, depth, maximizing, player, eval, moves);
    assert vs[1..] == Values(b, depth, maximizing, player, eval, moves[1..]);
  }

  // ---------------------------------------------------------------------
  // Order does not matter to the best value

  lemma SameElementsBest(maximizing: bool, s: seq<Score>, t: seq<Score>)
    requires forall x :: x in s <==> x in t
    ensures Best(maximizing, s) == Best(maximizing, t)
  {
    assert |s| == 0 <==> |t| == 0 by {
      if |t| > 0 {
        assert t[0] in s;
      }
      if |s| > 0 {
        assert s[0] in t;
      }
    }
    if |s| > 0 {
      assert s[0] in t;
      var m1, m2 := Best(maximizing, s), Best(maximizing, t);
      assert m1 in s && m2 in t;
      if maximizing {
        assert m1 in t && m2 in s;
        LeAntisymmetric(m1, m2);
      } else {
        assert m1 in t && m2 in s;
        LeAntisymmetric(m1, m2);
      }
    }
  }

  /** Scanning the children in any order of the same moves gives the same
      best value. */
  lemma PermutedBest(b: ValidBoard, depth: nat, maximizing: bool, player: Side, eval: Evaluator,
                     ms: seq<Coord>, ns: seq<Coord>)
    requires depth > 0 && multiset(ms) == multiset(ns)
    ensures Best(maximizing, Values(b, depth, maximizing, player, eval, ms))
         == Best(maximizing, Values(b, depth, maximizing, player, eval, ns))
  {
    var vs := Values(b, depth, maximizing, player, eval, ms);
    var ws := Values(b, depth, maximizing, player, eval, ns);
    ValuesAt(b, depth, maximizing, player, eval, ms);
    ValuesAt(b, depth, maximizing, player, eval, ns);
    forall x
      ensures x in vs <==> x in ws
    {
      if x in vs {
        var i :| 0 <= i < |vs| && vs[i] == x;
        assert ms[i] in multiset(ns);
        var j :| 0 <= j < |ns| && ns[j] == ms[i];
        assert ws[j] == x;
      }
      if x in ws {
        var j :| 0 <= j < |ws| && ws[j] == x;
        assert ns[j] in multiset(ms);
        var i :| 0 <= i < |ms| && ms[i] == ns[j];
        assert vs[i] == x;
      }
    }
    SameElementsBest(maximizing, vs, ws);
  }

  /** The value of a non-terminal node, read over the moves in the order
      the pruned search scans them. */
  lemma ValueOverScanOrder(b: ValidBoard, depth: nat, maximizing: bool, player: Side, eval: Evaluator,
                           order: Option<Orderer>)
    requires PermutingOrder(order) && Terminal(b, depth, player, eval).None?
    ensures Value(b, depth, maximizing, player, eval)
         == Better(maximizing, Start(maximizing), Best(maximizing, Values(b, depth, maximizing, player, eval,
                                                                      ScanOrder(b, player, order))))
  {
    var moves := ScanOrder(b, player, order);
    assert multiset(EmptyCells(b)) == multiset(moves);
    PermutedBest(b, depth, maximizing, player, eval, EmptyCells(b), moves);
    StartNeutral(maximizing, Best(maximizing, Values(b, depth, maximizing, player, eval, moves)));
  }

  // ---------------------------------------------------------------------
  // The window theorem

  /** With `lo < hi`, the pruned score and the game-tree value agree inside
      the window. */
  lemma AlphaBetaClamp(b: ValidBoard, depth: nat, lo: Score, hi: Score, maximizing: bool, player: Side,
                       eval: Evaluator, order: Option<Orderer>)
    requires Lt(lo, hi) && PermutingOrder(order)
    ensures Clamp(lo, hi, AlphaBeta(b, depth, lo, hi, maximizing, player, eval, order).0)
         == Clamp(lo, hi, Value(b, depth, maximizing, player, eval))
    decreases depth, 1, 0, 0
  {
    if Terminal(b, depth, player, eval).None? {
      var moves := ScanOrder(b, player, order);
      ValueOverScanOrder(b, depth, maximizing, player, eval, order);
      if maximizing {
        assert Max(lo, NegInf) == lo;
        MaxScanClamp(b, depth, lo, hi, player, eval, order, moves, NegInf, None);
      } else {
        assert Min(hi, PosInf) == hi;
        MinScanClamp(b, depth, lo, hi, player, eval, order, moves, PosInf, None);
      }
    }
  }

  /** The scan at a maximising node, entered with alpha raised to the best
      score so far and no cutoff yet. */
  lemma MaxScanClamp(b: ValidBoard, depth: nat, lo: Score, hi: Score, player: Side, eval: Evaluator,
                     order: Option<Orderer>, moves: seq<Coord>, best: Score, bestMove: Option<Coord>)
    requires depth > 0 && PermutingOrder(order) && Lt(Max(lo, best), hi)
    ensures Clamp(lo, hi, AlphaBetaScan(b, depth, Max(lo, best), hi, true, player, eval, order, moves, best, bestMove).0)
         == Clamp(lo, hi, Max(best, MaxOf(Values(b, depth, true, player, eval, moves))))
    decreases depth, 0, |moves|, 1
  {
    if |moves| == 0 {
      assert Max(best, NegInf) == best;
    } else {
      var m := moves[0];
      var score := MaxScanHead(b, depth, lo, hi, player, eval, order, moves, best, bestMove);
      var v := ChildValue(b, depth, true, player, eval, m);
      var rest := MaxOf(Values(b, depth, true, player, eval, moves[1..]));
      var best' := Max(best, score);
      if Le(hi, Max(lo, best')) {
        MaxCutoff(lo, hi, best, score, v, rest);
      } else {
        var move' := if Improves(true, best, score) then Some(m) else bestMove;
        MaxScanClamp(b, depth, lo, hi, player, eval, order, moves[1..], best', move');
        MaxStep(lo, hi, best, score, v, rest);
      }
    }
  }

  /** The first step of a maximising scan: the child's pruned score, which
      agrees with its value inside the window, and how the scan goes on. */
  lemma MaxScanHead(b: ValidBoard, depth: nat, lo: Score, hi: Score, player: Side, eval: Evaluator,
                    order: Option<Orderer>, moves: seq<Coord>, best: Score, bestMove: Option<Coord>)
    returns (score: Score)
    requires depth > 0 && PermutingOrder(order) && Lt(Max(lo, best), hi) && |moves| > 0
    ensures score == AlphaBeta(Child(b, moves[0], player), depth - 1, Max(lo, best), hi, false, player, eval, order).0
    ensures var v := ChildValue(b, depth, true, player, eval, moves[0]);
            && Clamp(Max(lo, best), hi, score) == Clamp(Max(lo, best), hi, v)
            && MaxOf(Values(b, depth, true, player, eval, moves))
               == Max(v, MaxOf(Values(b, depth, true, player, eval, moves[1..])))
    ensures var best' := Max(best, score);
            var move' := if Improves(true, best, score) then Some(moves[0]) else bestMove;
            var r := AlphaBetaScan(b, depth, Max(lo, best), hi, true, player, eval, order, moves, best, bestMove);
            && (Le(hi, Max(lo, best')) ==> r.0 == best')
            && (!Le(hi, Max(lo, best')) ==>
                  r == AlphaBetaScan(b, depth, Max(lo, best'), hi, true, player, eval, order, moves[1..], best', move'))
    decreases depth, 0, |moves|, 0
  {
    var child := Child(b, moves[0], Mover(true, player));
    score := AlphaBeta(child, depth - 1, Max(lo, best), hi, false, player, eval, order).0;
    AlphaBetaClamp(child, depth - 1, Max(lo, best), hi, false, player, eval, order);
    BestFront(b, depth, true, player, eval, moves);
    MaxUpdate(lo, hi, best, score);
  }

  /** A cutoff at a maximising node: the child's score reached `hi`, so its
      value did too. */
  lemma MaxCutoff(lo: Score, hi: Score, best: Score, score: Score, v: Score, rest: Score)
    requires Lt(Max(lo, best), hi)
    requires Clamp(Max(lo, best), hi, score) == Clamp(Max(lo, best), hi, v)
    requires Le(hi, Max(lo, Max(best, score)))
    ensures Clamp(lo, hi, Max(best, score)) == Clamp(lo, hi, Max(best, Max(v, rest)))
  {
  }

  /** No cutoff at a maximising node: the child's clamped score stands in
      for its value. */
  lemma MaxStep(lo: Score, hi: Score, best: Score, score: Score, v: Score, rest: Score)
    requires Lt(Max(lo, best), hi)
    requires Clamp(Max(lo, best), hi, score) == Clamp(Max(lo, best), hi, v)
    ensures Clamp(lo, hi, Max(Max(best, score), rest)) == Clamp(lo, hi, Max(best, Max(v, rest)))
  {
    var a := Max(lo, best);
    ClampShiftMax(lo, hi, best, Max(score, rest));
    ClampShiftMax(lo, hi, best, Max(v, rest));
    ClampMax(a, hi, score, rest);
    ClampMax(a, hi, v, rest);
    assert Max(Max(best, score), rest) == Max(best, Max(score, rest));
  }

  /** The scan at a minimising node, entered with beta lowered to the best
      score so far and no cutoff yet. */
  lemma MinScanClamp(b: ValidBoard, depth: nat, lo: Score, hi: Score, player: Side, eval: Evaluator,
                     order: Option<Orderer>, moves: seq<Coord>, best: Score, bestMove: Option<Coord>)
    requires depth > 0 && PermutingOrder(order) && Lt(lo, Min(hi, best))
    ensures Clamp(lo, hi, AlphaBetaScan(b, depth, lo, Min(hi, best), false, player, eval, order, moves, best, bestMove).0)
         == Clamp(lo, hi, Min(best, MinOf(Values(b, depth, false, player, eval, moves))))
    decreases depth, 0, |moves|, 1
  {
    if |moves| == 0 {
      assert Min(best, PosInf) == best;
    } else {
      var m := moves[0];
      var score := MinScanHead(b, depth, lo, hi, player, eval, order, moves, best, bestMove);
      var v := ChildValue(b, depth, false, player, eval, m);
      var rest := MinOf(Values(b, depth, false, player, eval, moves[1..]));
      var best' := Min(best, score);
      if Le(Min(hi, best'), lo) {
        MinCutoff(lo, hi, best, score, v, rest);
      } else {
        var move' := if Improves(false, best, score) then Some(m) else bestMove;
        MinScanClamp(b, depth, lo, hi, player, eval, order, moves[1..], best', move');
        MinStep(lo, hi, best, score, v, rest);
      }
    }
  }

  lemma MinScanHead(b: ValidBoard, depth: nat, lo: Score, hi: Score, player: Side, eval: Evaluator,
                    order: Option<Orderer>, moves: seq<Coord>, best: Score, bestMove: Option<Coord>)
    returns (score: Score)
    requires depth > 0 && PermutingOrder(order) && Lt(lo, Min(hi, best)) && |moves| > 0
    ensures score == AlphaBeta(Child(b, moves[0], Opponent(player)), depth - 1, lo, Min(hi, best), true, player, eval, order).0
    ensures var v := ChildValue(b, depth, false, player, eval, moves[0]);
            && Clamp(lo, Min(hi, best), score) == Clamp(lo, Min(hi, best), v)
            && MinOf(Values(b, depth, false, player, eval, moves))
               == Min(v, MinOf(Values(b, depth, false, player, eval, moves[1..])))
    ensures var best' := Min(best, score);
            var move' := if Improves(false, best, score) then Some(moves[0]) else bestMove;
            var r := AlphaBetaScan(b, depth, lo, Min(hi, best), false, player, eval, order, moves, best, bestMove);
            && (Le(Min(hi, best'), lo) ==> r.0 == best')
            && (!Le(Min(hi, best'), lo) ==>
                  r == AlphaBetaScan(b, depth, lo, Min(hi, best'), false, player, eval, order, moves[1..], best', move'))
    decreases depth, 0, |moves|, 0
  {
    var child := Child(b, moves[0], Mover(false, player));
    score := AlphaBeta(child, depth - 1, lo, Min(hi, best), true, player, eval, order).0;
    AlphaBetaClamp(child, depth - 1, lo, Min(hi, best), true, player, eval, order);
    BestFront(b, depth, false, player, eval, moves);
    MinUpdate(lo, hi, best, score);
  }

  lemma MinCutoff(lo: Score, hi: Score, best: Score, score: Score, v: Score, rest: Score)
    requires Lt(lo, Min(hi, best))
    requires Clamp(lo, Min(hi, best), score) == Clamp(lo, Min(hi, best), v)
    requires Le(Min(hi, Min(best, score)), lo)
    ensures Clamp(lo, hi, Min(best, score)) == Clamp(lo, hi, Min(best, Min(v, rest)))
  {
  }

  lemma MinStep(lo: Score, hi: Score, best: Score, score: Score, v: Score, rest: Score)
    requires Lt(lo, Min(hi, best))
    requires Clamp(lo, Min(hi, best), score) == Clamp(lo, Min(hi, best), v)
    ensures Clamp(lo, hi, Min(Min(best, score), rest)) == Clamp(lo, hi, Min(best, Min(v, rest)))
  {
    var c := Min(hi, best);
    ClampShiftMin(lo, hi, best, Min(score, rest));
    ClampShiftMin(lo, hi, best, Min(v, rest));
    ClampMin(lo, c, score, rest);
    ClampMin(lo, c, v, rest);
    assert Min(Min(best, score), rest) == Min(best, Min(score, rest));
  }

  /** Alpha-beta with the full window returns the minimax score. */
  lemma AlphaBetaEqualsMinimax(b: ValidBoard, depth: nat, maximizing: bool, player: Side, eval: Evaluator,
                               order: Option<Orderer>)
    requires PermutingOrder(order)
    ensures AlphaBeta(b, depth, NegInf, PosInf, maximizing, player, eval, order).0
         == Minimax(b, depth, maximizing, player, eval).0
  {
    AlphaBetaClamp(b, depth, NegInf, PosInf, maximizing, player, eval, order);
  }

  /** Fail-soft windows: a pruned score at or above `hi` means the value
      is too, one at or below `lo` means the value is too, and a pruned
      score strictly inside the window is the value itself. */
  lemma AlphaBetaWindow(b: ValidBoard, depth: nat, lo: Score, hi: Score, maximizing: bool, player: Side,
                        eval: Evaluator, order: Option<Orderer>)
    requires Lt(lo, hi) && PermutingOrder(order)
    ensures var a := AlphaBeta(b, depth, lo, hi, maximizing, player, eval, order).0;
            var v := Value(b, depth, maximizing, player, eval);
            && (Le(hi, a) <==> Le(hi, v))
            && (Le(a, lo) <==> Le(v, lo))
            && (Lt(lo, a) && Lt(a, hi) ==> a == v)
  {
    AlphaBetaClamp(b, depth, lo, hi, maximizing, player, eval, order);
  }

  /** A child score strictly above a finite-or-lower `lo`, searched with
      the window `(lo, inf)`, is exact. */
  lemma ExactAboveLo(lo: Score, score: Score, v: Score)
    requires Lt(lo, score) && Clamp(lo, PosInf, score) == Clamp(lo, PosInf, v)
    ensures v == score
  {
  }

  lemma ExactBelowHi(hi: Score, score: Score, v: Score)
    requires Lt(score, hi) && Clamp(NegInf, hi, score) == Clamp(NegInf, hi, v)
    ensures v == score
  {
  }

  /** The root scan of a maximising full-window search: each time the best
      score improves, the child that produced it has exactly that value. */
  lemma MaxRootScan(b: ValidBoard, depth: nat, player: Side, eval: Evaluator, order: Option<Orderer>,
                    moves: seq<Coord>, best: Score, bestMove: Option<Coord>)
    requires depth > 0 && PermutingOrder(order) && Lt(best, PosInf)
    requires bestMove.Some? ==> ChildValue(b, depth, true, player, eval, bestMove.value) == best
    ensures var r := AlphaBetaScan(b, depth, best, PosInf, true, player, eval, order, moves, best, bestMove);
            r.1.Some? ==> ChildValue(b, depth, true, player, eval, r.1.value) == r.0
    decreases |moves|
  {
    if |moves| > 0 {
      var m := moves[0];
      var child := Child(b, m, Mover(true, player));
      var score := AlphaBeta(child, depth - 1, best, PosInf, false, player, eval, order).0;
      AlphaBetaClamp(child, depth - 1, best, PosInf, false, player, eval, order);
      MaxUpdate(best, PosInf, best, score);
      var best' := if Improves(true, best, score) then score else best;
      var move' := if Improves(true, best, score) then Some(m) else bestMove;
      if Improves(true, best, score) {
        ExactAboveLo(best, score, ChildValue(b, depth, true, player, eval, m));
      }
      assert Max(best, best') == best';
      if !Le(PosInf, best') {
        MaxRootScan(b, depth, player, eval, order, moves[1..], best', move');
      }
    }
  }

  lemma MinRootScan(b: ValidBoard, depth: nat, player: Side, eval: Evaluator, order: Option<Orderer>,
                    moves: seq<Coord>, best: Score, bestMove: Option<Coord>)
    requires depth > 0 && PermutingOrder(order) && Lt(NegInf, best)
    requires bestMove.Some? ==> ChildValue(b, depth, false, player, eval, bestMove.value) == best
    ensures var r := AlphaBetaScan(b, depth, NegInf, best, false, player, eval, order, moves, best, bestMove);
            r.1.Some? ==> ChildValue(b, depth, false, player, eval, r.1.value) == r.0
    decreases |moves|
  {
    if |moves| > 0 {
      var m := moves[0];
      var child := Child(b, m, Mover(false, player));
      var score := AlphaBeta(child, depth - 1, NegInf, best, true, player, eval, order).0;
      AlphaBetaClamp(child, depth - 1, NegInf, best, true, player, eval, order);
      MinUpdate(NegInf, best, best, score);
      var best' := if Improves(false, best, score) then score else best;
      var move' := if Improves(false, best, score) then Some(m) else bestMove;
      if Improves(false, best, score) {
        ExactBelowHi(best, score, ChildValue(b, depth, false, player, eval, m));
      }
      assert Min(best, best') == best';
      if !Le(best', NegInf) {
        MinRootScan(b, depth, player, eval, order, moves[1..], best', move');
      }
    }
  }

  /** The move a full-window alpha-beta search returns is an empty cell
      whose child has the position's minimax value: an optimal move. */
  lemma AlphaBetaMoveOptimal(b: ValidBoard, depth: nat, maximizing: bool, player: Side, eval: Evaluator,
                             order: Option<Orderer>)
    requires PermutingOrder(order)
    ensures var r := AlphaBeta(b, depth, NegInf, PosInf, maximizing, player, eval, order);
            r.1.Some? ==>
              && depth > 0
              && r.1.value in EmptyCells(b)
              && ChildValue(b, depth, maximizing, player, eval, r.1.value) == Value(b, depth, maximizing, player, eval)
  {
    var r := AlphaBeta(b, depth, NegInf, PosInf, maximizing, player, eval, order);
    AlphaBetaEqualsMinimax(b, depth, maximizing, player, eval, order);
    if r.1.Some? {
      var moves := ScanOrder(b, player, order);
      assert r.1.value in multiset(moves);
      if maximizing {
        MaxRootScan(b, depth, player, eval, order, moves, NegInf, None);
      } else {
        MinRootScan(b, depth, player, eval, order, moves, PosInf, None);
      }
    }
  }
}
