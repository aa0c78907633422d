/** Same-colour connectivity: the breadth-first traversal behind
    `check_win` (stops on reaching the far edge) and
    `_count_connected_to_start` (explores the whole component). Both are
    proved against an inductive notion of a chain of stones. */
module Connectivity {
  import opened Utils
  import opened HexBoard

  /** RED starts on row 0, BLUE on column 0. */
  predicate OnStartEdge(p: Side, x: Coord) {
    if p == Red then x.0 == 0 else x.1 == 0
  }

  /** RED's goal is row size-1, BLUE's is column size-1. */
  predicate OnFarEdge(b: ValidBoard, p: Side, x: Coord) {
    if p == Red then x.0 == b.size - 1 else x.1 == b.size - 1
  }

  function AllCells(b: ValidBoard): (s: set<Coord>)
    ensures forall x :: x in s <==> InBounds(b, x)
  {
    set r, c | 0 <= r < b.size && 0 <= c < b.size :: (r, c)
  }

  // ---------------------------------------------------------------------
  // Chains

  /** A neighbour chain of `p`'s stones that starts on `p`'s start edge. */
  ghost predicate IsChain(b: ValidBoard, p: Side, path: seq<Coord>) {
    && |path| > 0
    && OnStartEdge(p, path[0])
    && (forall i :: 0 <= i < |path| ==> InBounds(b, path[i]) && At(b, path[i]) == p)
    && (forall i :: 0 < i < |path| ==> Adjacent(path[i - 1], path[i]))
  }

  /** `x` is joined to `p`'s start edge through `p`'s stones. */
  ghost predicate Reachable(b: ValidBoard, p: Side, x: Coord) {
    exists path :: IsChain(b, p, path) && path[|path| - 1] == x
  }

  /** `p` has a chain joining its start edge to its far edge. */
  ghost predicate HasWinningChain(b: ValidBoard, p: Side) {
    exists path :: IsChain(b, p, path) && OnFarEdge(b, p, path[|path| - 1])
  }

  /** The set of cells joined to `p`'s start edge through `p`'s stones. */
  ghost function ReachSet(b: ValidBoard, p: Side): set<Coord> {
    set x | x in AllCells(b) && Reachable(b, p, x)
  }

  lemma ChainSingle(b: ValidBoard, p: Side, x: Coord)
    requires InBounds(b, x) && At(b, x) == p && OnStartEdge(p, x)
    ensures Reachable(b, p, x)
  {
    assert IsChain(b, p, [x]);
  }

  lemma ChainExtend(b: ValidBoard, p: Side, path: seq<Coord>, y: Coord)
    requires IsChain(b, p, path)
    requires InBounds(b, y) && At(b, y) == p && Adjacent(path[|path| - 1], y)
    ensures IsChain(b, p, path + [y])
  {
  }

  lemma ReachableExtend(b: ValidBoard, p: Side, x: Coord, y: Coord)
    requires Reachable(b, p, x)
    requires InBounds(b, y) && At(b, y) == p && Adjacent(x, y)
    ensures Reachable(b, p, y)
  {
    var path :| IsChain(b, p, path) && path[|path| - 1] == x;
    ChainExtend(b, p, path, y);
    assert (path + [y])[|path + [y]| - 1] == y;
  }

  // ---------------------------------------------------------------------
  // Seeds

  /** Start-edge cells with index `k` onwards owned by `p`, in scan order. */
  function StartCellsFrom(b: ValidBoard, p: Side, k: nat): (s: seq<Coord>)
    ensures forall x :: x in s <==> InBounds(b, x) && OnStartEdge(p, x) && At(b, x) == p
                                    && (if p == Red then x.1 else x.0) >= k
    decreases b.size - k
  {
    if k >= b.size then []
    else
      var x := if p == Red then (0, k) else (k, 0);
      var rest := StartCellsFrom(b, p, k + 1);
      if At(b, x) == p then [x] + rest else rest
  }

  /** The seeds of both traversals: `p`'s stones on its start edge. */
  function StartCells(b: ValidBoard, p: Side): (s: seq<Coord>)
    ensures forall x :: x in s <==> InBounds(b, x) && OnStartEdge(p, x) && At(b, x) == p
  {
    StartCellsFrom(b, p, 0)
  }

  // ---------------------------------------------------------------------
  // One expansion step

  /** Every `p` neighbour of `x` is already visited. */
  ghost predicate Closed(b: ValidBoard, p: Side, x: Coord, visited: set<Coord>) {
    forall y :: InBounds(b, y) && Adjacent(x, y) && At(b, y) == p ==> y in visited
  }

  /** Visit and enqueue, in order, the unvisited cells of `ns` owned by `p`. */
  function Expand(b: ValidBoard, p: Side, ns: seq<Coord>, queue: seq<Coord>, visited: set<Coord>)
    : (res: (seq<Coord>, set<Coord>))
    requires forall y :: y in ns ==> InBounds(b, y)
    ensures visited <= res.1
    ensures forall y :: y in res.1 <==> y in visited || (y in ns && At(b, y) == p)
    ensures forall y :: y in res.0 <==> y in queue || (y in ns && At(b, y) == p && y !in visited)
    ensures |res.0| - |queue| == |res.1| - |visited|
  {
    if |ns| == 0 then (queue, visited)
    else
      var y := ns[0];
      assert forall z :: z in ns <==> z == y || z in ns[1..];
      if y !in visited && At(b, y) == p then
        Expand(b, p, ns[1..], queue + [y], visited + {y})
      else
        Expand(b, p, ns[1..], queue, visited)
  }

  /** The traversal invariant: visited cells are reachable `p` stones, the
      queue is visited, every seed is visited, and every visited cell that
      has left the queue is closed (and, when the traversal stops at the
      far edge, is not on it). */
  ghost predicate SearchInv(b: ValidBoard, p: Side, queue: seq<Coord>, visited: set<Coord>, stopAtFar: bool) {
    && VisitedSound(b, p, visited)
    && (forall x :: x in queue ==> x in visited)
    && SeedsVisited(b, p, visited)
    && DoneClosed(b, p, queue, visited, stopAtFar)
  }

  ghost predicate VisitedSound(b: ValidBoard, p: Side, visited: set<Coord>) {
    forall x :: x in visited ==> InBounds(b, x) && At(b, x) == p && Reachable(b, p, x)
  }

  ghost predicate SeedsVisited(b: ValidBoard, p: Side, visited: set<Coord>) {
    forall x :: InBounds(b, x) && OnStartEdge(p, x) && At(b, x) == p ==> x in visited
  }

  ghost predicate DoneClosed(b: ValidBoard, p: Side, queue: seq<Coord>, visited: set<Coord>, stopAtFar: bool) {
    forall x :: x in visited && x !in queue ==>
      Closed(b, p, x, visited) && (stopAtFar ==> !OnFarEdge(b, p, x))
  }

  lemma SeedsEstablishInv(b: ValidBoard, p: Side, stopAtFar: bool)
    ensures SearchInv(b, p, StartCells(b, p), (set x | x in StartCells(b, p)), stopAtFar)
  {
    var seeds := StartCells(b, p);
    forall x | x in seeds
      ensures Reachable(b, p, x)
    {
      ChainSingle(b, p, x);
    }
  }

  /** Expanding the head of the queue keeps the invariant. */
  lemma ExpandKeepsInv(b: ValidBoard, p: Side, queue: seq<Coord>, visited: set<Coord>, stopAtFar: bool)
    requires |queue| > 0 && SearchInv(b, p, queue, visited, stopAtFar)
    requires stopAtFar ==> !OnFarEdge(b, p, queue[0])
    ensures var res := Expand(b, p, Neighbors(b, queue[0]), queue[1..], visited);
            SearchInv(b, p, res.0, res.1, stopAtFar)
  {
    var x := queue[0];
    var res := Expand(b, p, Neighbors(b, x), queue[1..], visited);
    assert VisitedSound(b, p, res.1) by {
      ExpandVisitsReachable(b, p, queue, visited, stopAtFar);
    }
    assert DoneClosed(b, p, res.0, res.1, stopAtFar) by {
      ExpandKeepsClosed(b, p, queue, visited, stopAtFar);
    }
    ExpandKeepsQueued(b, p, queue, visited, stopAtFar);
  }

  /** The queue stays inside the visited set, which keeps every seed. */
  lemma ExpandKeepsQueued(b: ValidBoard, p: Side, queue: seq<Coord>, visited: set<Coord>, stopAtFar: bool)
    requires |queue| > 0 && SearchInv(b, p, queue, visited, stopAtFar)
    ensures var res := Expand(b, p, Neighbors(b, queue[0]), queue[1..], visited);
            && (forall y :: y in res.0 ==> y in res.1)
            && SeedsVisited(b, p, res.1)
  {
    var res := Expand(b, p, Neighbors(b, queue[0]), queue[1..], visited);
    assert forall y :: y in queue[1..] ==> y in queue;
  }

  lemma ExpandVisitsReachable(b: ValidBoard, p: Side, queue: seq<Coord>, visited: set<Coord>, stopAtFar: bool)
    requires |queue| > 0 && SearchInv(b, p, queue, visited, stopAtFar)
    ensures var res := Expand(b, p, Neighbors(b, queue[0]), queue[1..], visited);
            VisitedSound(b, p, res.1)
  {
    var x := queue[0];
    var res := Expand(b, p, Neighbors(b, x), queue[1..], visited);
    forall y | y in res.1
      ensures InBounds(b, y) && At(b, y) == p && Reachable(b, p, y)
    {
      if y !in visited {
        ReachableExtend(b, p, x, y);
      }
    }
  }

  lemma ExpandKeepsClosed(b: ValidBoard, p: Side, queue: seq<Coord>, visited: set<Coord>, stopAtFar: bool)
    requires |queue| > 0 && SearchInv(b, p, queue, visited, stopAtFar)
    requires stopAtFar ==> !OnFarEdge(b, p, queue[0])
    ensures var res := Expand(b, p, Neighbors(b, queue[0]), queue[1..], visited);
            DoneClosed(b, p, res.0, res.1, stopAtFar)
  {
    var x := queue[0];
    var res := Expand(b, p, Neighbors(b, x), queue[1..], visited);
    forall z | z in res.1 && z !in res.0
      ensures Closed(b, p, z, res.1) && (stopAtFar ==> !OnFarEdge(b, p, z))
    {
      if z != x {
        assert z in visited && z !in queue[1..];
        ClosedGrows(b, p, z, visited, res.1);
      }
    }
  }

  lemma ClosedGrows(b: ValidBoard, p: Side, z: Coord, v: set<Coord>, v': set<Coord>)
    requires Closed(b, p, z, v) && v <= v'
    ensures Closed(b, p, z, v')
  {
  }

  /** With an empty queue, every chain stays inside the visited set. */
  lemma {:induction false} ChainsStayVisited(b: ValidBoard, p: Side, visited: set<Coord>, stopAtFar: bool, path: seq<Coord>)
    requires SeedsVisited(b, p, visited) && DoneClosed(b, p, [], visited, stopAtFar)
    requires IsChain(b, p, path)
    ensures forall i :: 0 <= i < |path| ==> path[i] in visited
    decreases |path|
  {
    if |path| == 1 {
      assert InBounds(b, path[0]) && OnStartEdge(p, path[0]) && At(b, path[0]) == p;
    } else {
      var last := |path| - 1;
      var prefix := path[..last];
      assert IsChain(b, p, prefix);
      ChainsStayVisited(b, p, visited, stopAtFar, prefix);
      var u := path[last - 1];
      assert u == prefix[last - 1];
      assert u in visited && u !in [];
      assert Closed(b, p, u, visited);
      assert Adjacent(u, path[last]) && InBounds(b, path[last]) && At(b, path[last]) == p;
      forall i | 0 <= i < |path|
        ensures path[i] in visited
      {
        if i < last {
          assert path[i] == prefix[i];
        }
      }
    }
  }

  /** Measure used by both traversals: unvisited cells, then queue length. */
  lemma MeasureDrops(b: ValidBoard, p: Side, queue: seq<Coord>, visited: set<Coord>, q': seq<Coord>, v': set<Coord>)
    requires |queue| > 0 && visited <= v' <= AllCells(b)
    requires |q'| - (|queue| - 1) == |v'| - |visited|
    ensures |AllCells(b) - v'| < |AllCells(b) - visited|
         || (|AllCells(b) - v'| == |AllCells(b) - visited| && |q'| < |queue|)
  {
    if v' != visited {
      var a := AllCells(b);
      assert a - visited == (a - v') + (v' - visited);
      assert (a - v') !! (v' - visited);
      assert |v' - visited| > 0 by {
        var y :| y in v' && y !in visited;
      }
    }
  }

  // ---------------------------------------------------------------------
  // check_win

  /** The `check_win` loop: pop the head, succeed on the far edge, else
      enqueue its unvisited `p` neighbours. */
  function WinSearch(b: ValidBoard, p: Side, queue: seq<Coord>, visited: set<Coord>): (won: bool)
    requires SearchInv(b, p, queue, visited, true)
    ensures won <==> HasWinningChain(b, p)
    decreases |AllCells(b) - visited|, |queue|
  {
    if |queue| == 0 then
      NoChainWhenDone(b, p, visited);
      false
    else
      var x := queue[0];
      if OnFarEdge(b, p, x) then
        assert Reachable(b, p, x);
        true
      else
        var res := Expand(b, p, Neighbors(b, x), queue[1..], visited);
        ExpandKeepsInv(b, p, queue, visited, true);
        MeasureDrops(b, p, queue, visited, res.0, res.1);
        WinSearch(b, p, res.0, res.1)
  }

  lemma NoChainWhenDone(b: ValidBoard, p: Side, visited: set<Coord>)
    requires SearchInv(b, p, [], visited, true)
    ensures !HasWinningChain(b, p)
  {
    forall path | IsChain(b, p, path)
      ensures !OnFarEdge(b, p, path[|path| - 1])
    {
      ChainsStayVisited(b, p, visited, true, path);
    }
  }

  /** `check_win`: true exactly when a chain of `p`'s stones joins `p`'s
      start edge to its far edge. */
  function CheckWin(b: ValidBoard, p: Side): (won: bool)
    ensures won <==> HasWinningChain(b, p)
  {
    var seeds := StartCells(b, p);
    SeedsEstablishInv(b, p, true);
    WinSearch(b, p, seeds, (set x | x in seeds))
  }

  /** A side that has won owns a cell of its start edge (so without such a
      stone `check_win` is false). */
  lemma WinNeedsStartStone(b: ValidBoard, p: Side)
    ensures CheckWin(b, p) ==> exists x :: InBounds(b, x) && OnStartEdge(p, x) && At(b, x) == p
  {
    if CheckWin(b, p) {
      var path :| IsChain(b, p, path) && OnFarEdge(b, p, path[|path| - 1]);
      assert InBounds(b, path[0]) && OnStartEdge(p, path[0]) && At(b, path[0]) == p;
    }
  }

  // ---------------------------------------------------------------------
  // _count_connected_to_start

  /** The counting traversal: like `WinSearch` without the early exit; the
      result is the final visited set. */
  function ComponentSearch(b: ValidBoard, p: Side, queue: seq<Coord>, visited: set<Coord>): (reached: set<Coord>)
    requires SearchInv(b, p, queue, visited, false)
    ensures reached == ReachSet(b, p)
    decreases |AllCells(b) - visited|, |queue|
  {
    if |queue| == 0 then
      VisitedIsReachSet(b, p, visited);
      visited
    else
      var res := Expand(b, p, Neighbors(b, queue[0]), queue[1..], visited);
      ExpandKeepsInv(b, p, queue, visited, false);
      MeasureDrops(b, p, queue, visited, res.0, res.1);
      ComponentSearch(b, p, res.0, res.1)
  }

  lemma VisitedIsReachSet(b: ValidBoard, p: Side, visited: set<Coord>)
    requires SearchInv(b, p, [], visited, false)
    ensures visited == ReachSet(b, p)
  {
    forall x | x in ReachSet(b, p)
      ensures x in visited
    {
      var path :| IsChain(b, p, path) && path[|path| - 1] == x;
      ChainsStayVisited(b, p, visited, false, path);
    }
  }

  /** `_count_connected_to_start`: the number of `p` stones joined to `p`'s
      start edge through `p` stones. */
  function CountConnectedToStart(b: ValidBoard, p: Side): (n: nat)
    ensures n == |ReachSet(b, p)|
  {
    var seeds := StartCells(b, p);
    SeedsEstablishInv(b, p, false);
    |ComponentSearch(b, p, seeds, (set x | x in seeds))|
  }

  /** The count never exceeds the side's stone count. */
  lemma CountAtMostStones(b: ValidBoard, p: Side)
    ensures CountConnectedToStart(b, p) <= StoneCount(b, p)
  {
    var reach := ReachSet(b, p);
    var stones := StoneSet(b, p);
    forall x | x in reach
      ensures x in stones
    {
      ReachableIsStone(b, p, x);
    }
    SubsetCardinality(reach, stones);
    StoneSetSize(b, p);
  }

  lemma SubsetCardinality(a: set<Coord>, c: set<Coord>)
    requires a <= c
    ensures |a| <= |c|
  {
    assert c == a + (c - a);
  }

  lemma ReachableIsStone(b: ValidBoard, p: Side, x: Coord)
    requires Reachable(b, p, x)
    ensures InBounds(b, x) && At(b, x) == p
  {
    var path :| IsChain(b, p, path) && path[|path| - 1] == x;
    assert At(b, path[|path| - 1]) == p;
  }

  /** The count is positive only when the side owns a start-edge cell. */
  lemma CountNeedsStartStone(b: ValidBoard, p: Side)
    ensures CountConnectedToStart(b, p) > 0 ==>
              exists x :: InBounds(b, x) && OnStartEdge(p, x) && At(b, x) == p
  {
    var reach := ReachSet(b, p);
    if reach != {} {
      var x :| x in reach;
      var path :| IsChain(b, p, path) && path[|path| - 1] == x;
      assert InBounds(b, path[0]) && OnStartEdge(p, path[0]) && At(b, path[0]) == p;
    }
  }

  /** `check_win` agrees with the component: a side has won exactly when its
      start-edge component touches the far edge. */
  lemma WinIffComponentTouchesFarEdge(b: ValidBoard, p: Side)
    ensures CheckWin(b, p) <==> exists x :: x in ReachSet(b, p) && OnFarEdge(b, p, x)
  {
    if CheckWin(b, p) {
      var path :| IsChain(b, p, path) && OnFarEdge(b, p, path[|path| - 1]);
      var x := path[|path| - 1];
      assert x in AllCells(b);
      assert x in ReachSet(b, p);
    }
    if exists x :: x in ReachSet(b, p) && OnFarEdge(b, p, x) {
      var x :| x in ReachSet(b, p) && OnFarEdge(b, p, x);
      var path :| IsChain(b, p, path) && path[|path| - 1] == x;
      assert HasWinningChain(b, p);
    }
  }
}
