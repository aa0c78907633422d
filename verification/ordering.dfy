/** `order_moves_by_heuristic`: a stable sort of candidate moves by the
    moving side's path cost after the move plus a tenth of the move's
    distance from the board centre. */
module Ordering {
  import opened Utils
  import opened HexBoard
  import opened PathCost
  import opened Scores

  // ---------------------------------------------------------------------
  // A stable sort by key, as Python's `sorted(moves, key=...)`

  predicate SortedBy(s: seq<Coord>, key: Coord -> Score) {
    forall i, j :: 0 <= i < j < |s| ==> Le(key(s[i]), key(s[j]))
  }

  /** The elements of `s` whose key is `k`, in their order in `s`. */
  function WithKey(s: seq<Coord>, key: Coord -> Score, k: Score): (r: seq<Coord>)
    ensures |r| <= |s|
  {
    if |s| == 0 then []
    else if key(s[0]) == k then [s[0]] + WithKey(s[1..], key, k)
    else WithKey(s[1..], key, k)
  }

  /** Insert `x` before the first element whose key is not smaller. */
  function Insert(x: Coord, s: seq<Coord>, key: Coord -> Score): (r: seq<Coord>)
    ensures multiset(r) == multiset(s) + multiset{x}
    ensures |r| == |s| + 1
  {
    if |s| == 0 then [x]
    else if Le(key(x), key(s[0])) then [x] + s
    else
      assert s == [s[0]] + s[1..];
      [s[0]] + Insert(x, s[1..], key)
  }

  /** Every element of `Insert(x, s)` is `x` or an element of `s`. */
  lemma {:induction false} InsertElements(x: Coord, s: seq<Coord>, key: Coord -> Score)
    ensures forall y :: y in Insert(x, s, key) <==> y == x || y in s
  {
    assert multiset(Insert(x, s, key)) == multiset(s) + multiset{x};
    forall y
      ensures y in Insert(x, s, key) <==> y == x || y in s
    {
      assert y in Insert(x, s, key) <==> y in multiset(Insert(x, s, key));
      assert y in s <==> y in multiset(s);
    }
  }

  lemma {:induction false} InsertSorted(x: Coord, s: seq<Coord>, key: Coord -> Score)
    requires SortedBy(s, key)
    ensures SortedBy(Insert(x, s, key), key)
    decreases |s|
  {
    if |s| > 0 && !Le(key(x), key(s[0])) {
      var tail := s[1..];
      InsertSorted(x, tail, key);
      InsertElements(x, tail, key);
      var r := Insert(x, s, key);
      assert r == [s[0]] + Insert(x, tail, key);
      forall i, j | 0 <= i < j < |r|
        ensures Le(key(r[i]), key(r[j]))
      {
        if i == 0 {
          assert r[j] in Insert(x, tail, key);
          if r[j] != x {
            var t :| 0 <= t < |tail| && tail[t] == r[j];
            assert s[t + 1] == r[j];
          }
        }
      }
    } else if |s| > 0 {
      var r := Insert(x, s, key);
      forall i, j | 0 <= i < j < |r|
        ensures Le(key(r[i]), key(r[j]))
      {
        if i == 0 {
          assert Le(key(s[0]), key(s[j - 1]));
        }
      }
    }
  }

  /** Inserting into a sorted list keeps `x` ahead of the elements with an
      equal key, so each equal-key group reads as if `x` were prepended. */
  lemma {:induction false} InsertWithKey(x: Coord, s: seq<Coord>, key: Coord -> Score, k: Score)
    requires SortedBy(s, key)
    ensures WithKey(Insert(x, s, key), key, k) == WithKey([x] + s, key, k)
    decreases |s|
  {
    if |s| > 0 && !Le(key(x), key(s[0])) {
      var tail := s[1..];
      InsertWithKey(x, tail, key, k);
      assert ([x] + s)[1..] == s;
      assert ([x] + tail)[1..] == tail;
      if key(s[0]) == k {
        // s[0] is strictly below x, so x is not in group k
        assert key(x) != k;
      }
    }
  }

  /** `sorted(s, key=key)`. */
  function SortByKey(s: seq<Coord>, key: Coord -> Score): (r: seq<Coord>)
    ensures multiset(r) == multiset(s)
    ensures SortedBy(r, key)
    ensures forall k :: WithKey(r, key, k) == WithKey(s, key, k)
  {
    if |s| == 0 then []
    else
      var rest := SortByKey(s[1..], key);
      InsertStep(s, rest, key);
      Insert(s[0], rest, key)
  }

  /** One step of the insertion sort: inserting the head of `s` into a
      sorted, group-preserving arrangement of its tail sorts all of `s`. */
  lemma InsertStep(s: seq<Coord>, rest: seq<Coord>, key: Coord -> Score)
    requires |s| > 0
    requires multiset(rest) == multiset(s[1..]) && SortedBy(rest, key)
    requires forall k :: WithKey(rest, key, k) == WithKey(s[1..], key, k)
    ensures multiset(Insert(s[0], rest, key)) == multiset(s)
    ensures SortedBy(Insert(s[0], rest, key), key)
    ensures forall k :: WithKey(Insert(s[0], rest, key), key, k) == WithKey(s, key, k)
  {
    InsertSorted(s[0], rest, key);
    assert s == [s[0]] + s[1..];
    forall k
      ensures WithKey(Insert(s[0], rest, key), key, k) == WithKey(s, key, k)
    {
      InsertWithKey(s[0], rest, key, k);
      assert ([s[0]] + rest)[1..] == rest;
    }
  }

  // ---------------------------------------------------------------------
  // The heuristic key

  function Abs(x: real): real {
    if x < 0.0 then -x else x
  }

  /** `abs(r - center) + abs(c - center)` with `center = size / 2.0`. */
  function CenterDistance(b: ValidBoard, m: Coord): (d: real)
    ensures d >= 0.0
  {
    var center := b.size as real / 2.0;
    Abs(m.0 as real - center) + Abs(m.1 as real - center)
  }

  /** `path_cost + center_dist * 0.1`, where the path cost is the side's
      after it plays `m` on a copy of the board; `inf` plus anything is
      `inf`. */
  function MoveKey(b: ValidBoard, m: Coord, p: Side): (k: Score)
    ensures k == PosInf <==> Blocked(Place(b, m, p).1, p)
    ensures k != NegInf
    ensures !Blocked(Place(b, m, p).1, p) ==>
              exists c: nat :: ShortestFar(Place(b, m, p).1, p, c) && k == Fin(c as real + CenterDistance(b, m) * 0.1)
  {
    var child := Place(Clone(b), m, p).1;
    match ShortestPathCost(child, p)
    case Finite(n) => Fin(n as real + CenterDistance(b, m) * 0.1)
    case Unreachable => PosInf
  }

  function KeyFor(b: ValidBoard, p: Side): Coord -> Score {
    m => MoveKey(b, m, p)
  }

  /** `order_moves_by_heuristic(board, moves, player)`: the same moves,
      ascending by key, moves with equal keys in their input order. */
  function OrderMovesByHeuristic(b: ValidBoard, moves: seq<Coord>, p: Side): (r: seq<Coord>)
    ensures multiset(r) == multiset(moves) && |r| == |moves|
    ensures SortedBy(r, KeyFor(b, p))
    ensures forall k :: WithKey(r, KeyFor(b, p), k) == WithKey(moves, KeyFor(b, p), k)
  {
    var r := SortByKey(moves, KeyFor(b, p));
    assert |r| == |multiset(r)| == |multiset(moves)| == |moves|;
    r
  }

  /** In a list sorted by key, a finite key comes before `inf`. */
  lemma FiniteBeforeInfinite(r: seq<Coord>, key: Coord -> Score, i: nat, j: nat)
    requires SortedBy(r, key) && i < |r| && j < |r|
    requires key(r[i]) != PosInf && key(r[j]) == PosInf
    ensures i < j
  {
  }

  /** A move that leaves the side able to connect sorts before one that
      cuts it off, whatever the distances to the centre. */
  lemma ConnectingMovesFirst(b: ValidBoard, moves: seq<Coord>, p: Side, i: nat, j: nat)
    requires i < |moves| && j < |moves|
    requires var r := OrderMovesByHeuristic(b, moves, p);
             !Blocked(Place(b, r[i], p).1, p) && Blocked(Place(b, r[j], p).1, p)
    ensures i < j
  {
    var r := OrderMovesByHeuristic(b, moves, p);
    assert KeyFor(b, p)(r[i]) == MoveKey(b, r[i], p);
    assert KeyFor(b, p)(r[j]) == MoveKey(b, r[j], p);
    FiniteBeforeInfinite(r, KeyFor(b, p), i, j);
  }
}
