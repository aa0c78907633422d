/** `_shortest_path_cost`: a 0/1-weighted Dijkstra search. Entering one of
    the side's own stones costs 0, an empty cell costs 1, an opponent stone
    cannot be entered. The frontier is a multiset of (distance, row, column)
    entries from which the lexicographically least entry is extracted, as
    Python's `heapq` does; entries made stale by a later improvement are
    skipped when popped. The result is proved to be the least number of
    empty cells on any start-edge to far-edge route. */
module PathCost {
  import opened Utils
  import opened HexBoard
  import opened Connectivity

  /** A path cost, or the `float('inf')` returned for a blocked side. */
  datatype Cost = Finite(n: nat) | Unreachable

  /** A cell the side may route through: on the board, not the opponent's. */
  predicate Passable(b: ValidBoard, p: Side, x: Coord) {
    InBounds(b, x) && At(b, x) != Opponent(p)
  }

  /** Cost of entering a cell: 0 for the side's own stone, 1 otherwise. */
  function Weight(b: ValidBoard, p: Side, x: Coord): nat
    requires InBounds(b, x)
  {
    if At(b, x) == p then 0 else 1
  }

  // ---------------------------------------------------------------------
  // Routes

  /** A neighbour path through passable cells starting on the start edge. */
  ghost predicate IsRoute(b: ValidBoard, p: Side, path: seq<Coord>) {
    && |path| > 0
    && OnStartEdge(p, path[0])
    && (forall i :: 0 <= i < |path| ==> Passable(b, p, path[i]))
    && (forall i :: 0 < i < |path| ==> Adjacent(path[i - 1], path[i]))
  }

  predicate AllInBounds(b: ValidBoard, path: seq<Coord>) {
    forall i :: 0 <= i < |path| ==> InBounds(b, path[i])
  }

  /** The number of cells on `path` that still have to be filled. */
  ghost function RouteCost(b: ValidBoard, p: Side, path: seq<Coord>): nat
    requires AllInBounds(b, path)
  {
    if |path| == 0 then 0
    else RouteCost(b, p, path[..|path| - 1]) + Weight(b, p, path[|path| - 1])
  }

  /** Some route ends at `x` and costs exactly `c`. */
  ghost predicate Achievable(b: ValidBoard, p: Side, x: Coord, c: nat) {
    exists path :: IsRoute(b, p, path) && path[|path| - 1] == x && RouteCost(b, p, path) == c
  }

  /** No route ending at `x` costs less than `c`. */
  ghost predicate LowerBound(b: ValidBoard, p: Side, x: Coord, c: nat) {
    forall path :: IsRoute(b, p, path) && path[|path| - 1] == x ==> RouteCost(b, p, path) >= c
  }

  /** A route that reaches the side's far edge. */
  ghost predicate FarRoute(b: ValidBoard, p: Side, path: seq<Coord>) {
    IsRoute(b, p, path) && OnFarEdge(b, p, path[|path| - 1])
  }

  lemma RouteExtend(b: ValidBoard, p: Side, path: seq<Coord>, y: Coord)
    requires IsRoute(b, p, path)
    requires Passable(b, p, y) && Adjacent(path[|path| - 1], y)
    ensures IsRoute(b, p, path + [y])
    ensures RouteCost(b, p, path + [y]) == RouteCost(b, p, path) + Weight(b, p, y)
  {
    assert (path + [y])[..|path|] == path;
  }

  lemma AchievableExtend(b: ValidBoard, p: Side, x: Coord, c: nat, y: Coord)
    requires Achievable(b, p, x, c)
    requires Passable(b, p, y) && Adjacent(x, y)
    ensures Achievable(b, p, y, c + Weight(b, p, y))
  {
    var path :| IsRoute(b, p, path) && path[|path| - 1] == x && RouteCost(b, p, path) == c;
    RouteExtend(b, p, path, y);
    assert (path + [y])[|path + [y]| - 1] == y;
  }

  lemma RoutePrefix(b: ValidBoard, p: Side, path: seq<Coord>)
    requires IsRoute(b, p, path) && |path| > 1
    ensures IsRoute(b, p, path[..|path| - 1])
    ensures RouteCost(b, p, path[..|path| - 1]) <= RouteCost(b, p, path)
  {
  }

  // ---------------------------------------------------------------------
  // The frontier

  /** A frontier entry `(d, row, col)`. */
  datatype Entry = Entry(d: nat, x: Coord)

  /** Python's tuple order on `(d, row, col)`. */
  predicate EntryLe(e: Entry, f: Entry) {
    || e.d < f.d
    || (e.d == f.d && e.x.0 < f.x.0)
    || (e.d == f.d && e.x.0 == f.x.0 && e.x.1 <= f.x.1)
  }

  /** `e` is the least entry of `h`. */
  predicate IsLeast(e: Entry, h: multiset<Entry>) {
    e in h && forall f :: f in h ==> EntryLe(e, f)
  }

  lemma {:induction false} MinExists(h: multiset<Entry>)
    requires |h| > 0
    ensures exists e :: IsLeast(e, h)
    decreases |h|
  {
    var y :| y in h;
    var rest := h - multiset{y};
    if |rest| == 0 {
      forall f | f in h
        ensures f == y
      {
        assert h[f] == rest[f] + (if f == y then 1 else 0);
      }
      assert IsLeast(y, h);
    } else {
      MinExists(rest);
      var m :| IsLeast(m, rest);
      var least := if EntryLe(y, m) then y else m;
      forall f | f in h
        ensures EntryLe(least, f)
      {
        if f != y {
          assert f in rest;
        }
      }
      assert IsLeast(least, h);
    }
  }

  /** `heappop`: the least entry of the frontier, in `(d, row, col)` order. */
  function HeapMin(h: multiset<Entry>): (e: Entry)
    requires |h| > 0
    ensures IsLeast(e, h)
  {
    MinExists(h);
    var e :| IsLeast(e, h);
    e
  }

  // ---------------------------------------------------------------------
  // Seeding

  /** Index of a start-edge cell along the edge. */
  function EdgeCell(p: Side, k: int): Coord {
    if p == Red then (0, k) else (k, 0)
  }

  /** Position of a start-edge cell along the edge. */
  function EdgeIndex(p: Side, y: Coord): int {
    if p == Red then y.1 else y.0
  }

  /** What the seeding loop has built before edge index `k`: each passable
      start-edge cell below `k` has its entry cost as distance, and the
      frontier holds exactly one entry per recorded cell. */
  ghost predicate Seeded(b: ValidBoard, p: Side, k: nat, heap: multiset<Entry>, dist: map<Coord, nat>) {
    && (forall y :: y in dist ==>
          Passable(b, p, y) && OnStartEdge(p, y) && EdgeIndex(p, y) < k && dist[y] == Weight(b, p, y))
    && (forall f :: heap[f] == if f.x in dist && f.d == dist[f.x] then 1 else 0)
  }

  /** The seeding loop from edge index `k`: each passable start-edge cell
      gets its own entry cost as distance, with one frontier entry. */
  function SeedLoop(b: ValidBoard, p: Side, k: nat, heap: multiset<Entry>, dist: map<Coord, nat>)
    : (res: (multiset<Entry>, map<Coord, nat>))
    requires Seeded(b, p, k, heap, dist)
    ensures forall y :: y in res.1 <==> y in dist || (Passable(b, p, y) && OnStartEdge(p, y) && EdgeIndex(p, y) >= k)
    ensures forall y :: y in res.1 ==> Passable(b, p, y) && res.1[y] == Weight(b, p, y)
    ensures forall f :: res.0[f] == if f.x in res.1 && f.d == res.1[f.x] then 1 else 0
    decreases b.size - k
  {
    if k >= b.size then
      assert forall y :: Passable(b, p, y) && OnStartEdge(p, y) ==> EdgeIndex(p, y) < b.size;
      (heap, dist)
    else
      var y := EdgeCell(p, k);
      if At(b, y) == Opponent(p) then
        SeedLoop(b, p, k + 1, heap, dist)
      else
        // The source's `cost < dist[y]` test always passes here: each
        // start-edge cell is seen once and starts at infinity.
        var cost := Weight(b, p, y);
        SeedAdd(b, p, k, heap, dist);
        SeedLoop(b, p, k + 1, heap + multiset{Entry(cost, y)}, dist[y := cost])
  }

  /** Recording the passable start-edge cell at index `k`. */
  lemma SeedAdd(b: ValidBoard, p: Side, k: nat, heap: multiset<Entry>, dist: map<Coord, nat>)
    requires k < b.size && Seeded(b, p, k, heap, dist) && At(b, EdgeCell(p, k)) != Opponent(p)
    ensures var y := EdgeCell(p, k);
            Seeded(b, p, k + 1, heap + multiset{Entry(Weight(b, p, y), y)}, dist[y := Weight(b, p, y)])
  {
  }

  // ---------------------------------------------------------------------
  // Relaxation

  /** The value at `y` was set or lowered between `dist` and `dist'`. */
  predicate Changed(dist: map<Coord, nat>, dist': map<Coord, nat>, y: Coord) {
    y in dist' && (y !in dist || dist'[y] != dist[y])
  }

  /** One iteration of the inner loop: a passable neighbour `y` of a
      settled cell at distance `d` whose distance improves gets the new
      distance and a new entry. */
  function RelaxOne(b: ValidBoard, p: Side, d: nat, y: Coord, heap: multiset<Entry>, dist: map<Coord, nat>)
    : (res: (multiset<Entry>, map<Coord, nat>))
    requires InBounds(b, y)
    ensures forall z :: z in res.1 <==> z in dist || (z == y && Passable(b, p, y))
    ensures forall z :: z in dist ==> res.1[z] <= dist[z]
    ensures Passable(b, p, y) ==> res.1[y] <= d + Weight(b, p, y)
    ensures forall z :: Changed(dist, res.1, z) ==> z == y && Passable(b, p, y) && res.1[y] == d + Weight(b, p, y)
    ensures forall f :: res.0[f] == heap[f] + if Changed(dist, res.1, f.x) && f.d == res.1[f.x] then 1 else 0
  {
    if At(b, y) == Opponent(p) then (heap, dist)
    else
      var nd := d + Weight(b, p, y);
      if y !in dist || nd < dist[y] then
        (heap + multiset{Entry(nd, y)}, dist[y := nd])
      else
        (heap, dist)
  }

  /** The inner loop over the neighbours `ns` of a settled cell. */
  function Relax(b: ValidBoard, p: Side, d: nat, ns: seq<Coord>, heap: multiset<Entry>, dist: map<Coord, nat>)
    : (res: (multiset<Entry>, map<Coord, nat>))
    requires forall y :: y in ns ==> InBounds(b, y)
    ensures forall y :: y in res.1 <==> y in dist || (y in ns && Passable(b, p, y))
    ensures forall y :: y in dist ==> res.1[y] <= dist[y]
    ensures forall y :: y in ns && Passable(b, p, y) ==> res.1[y] <= d + Weight(b, p, y)
    ensures forall y :: Changed(dist, res.1, y) ==>
              y in ns && Passable(b, p, y) && res.1[y] == d + Weight(b, p, y)
    ensures forall f :: res.0[f] == heap[f] + if Changed(dist, res.1, f.x) && f.d == res.1[f.x] then 1 else 0
  {
    if |ns| == 0 then (heap, dist)
    else
      var one := RelaxOne(b, p, d, ns[0], heap, dist);
      var res := Relax(b, p, d, ns[1..], one.0, one.1);
      RelaxCompose(b, p, d, ns, heap, dist, one, res);
      res
  }

  lemma RelaxCompose(b: ValidBoard, p: Side, d: nat, ns: seq<Coord>, heap: multiset<Entry>, dist: map<Coord, nat>,
                     one: (multiset<Entry>, map<Coord, nat>), res: (multiset<Entry>, map<Coord, nat>))
    requires |ns| > 0 && forall y :: y in ns ==> InBounds(b, y)
    requires one == RelaxOne(b, p, d, ns[0], heap, dist)
    requires res == Relax(b, p, d, ns[1..], one.0, one.1)
    ensures forall y :: y in res.1 <==> y in dist || (y in ns && Passable(b, p, y))
    ensures forall y :: y in dist ==> res.1[y] <= dist[y]
    ensures forall y :: y in ns && Passable(b, p, y) ==> res.1[y] <= d + Weight(b, p, y)
    ensures forall y :: Changed(dist, res.1, y) ==>
              y in ns && Passable(b, p, y) && res.1[y] == d + Weight(b, p, y)
    ensures forall f :: res.0[f] == heap[f] + if Changed(dist, res.1, f.x) && f.d == res.1[f.x] then 1 else 0
  {
    var y0 := ns[0];
    assert forall z :: z in ns <==> z == y0 || z in ns[1..];
    forall y | Changed(dist, res.1, y)
      ensures y in ns && Passable(b, p, y) && res.1[y] == d + Weight(b, p, y)
    {
      if !Changed(one.1, res.1, y) {
        assert Changed(dist, one.1, y);
      }
    }
    forall f
      ensures res.0[f] == heap[f] + if Changed(dist, res.1, f.x) && f.d == res.1[f.x] then 1 else 0
    {
      var z := f.x;
      if Changed(dist, one.1, z) && Changed(one.1, res.1, z) {
        // both steps set z to d + Weight(z), so the second cannot lower it
        assert false;
      }
    }
  }

  // ---------------------------------------------------------------------
  // The main loop and its invariant

  /** Every entry names a cell with a distance no larger than the entry's. */
  ghost predicate HeapSound(heap: multiset<Entry>, dist: map<Coord, nat>) {
    forall e :: e in heap ==> e.x in dist && e.d >= dist[e.x]
  }

  /** Every recorded distance is the cost of some route to the cell. */
  ghost predicate DistSound(b: ValidBoard, p: Side, dist: map<Coord, nat>) {
    && (forall y :: y in dist ==> Passable(b, p, y))
    && (forall y {:trigger Achievable(b, p, y, dist[y])} :: y in dist ==> Achievable(b, p, y, dist[y]))
  }

  /** Every passable start-edge cell has at most its entry cost. */
  ghost predicate SeedsRecorded(b: ValidBoard, p: Side, dist: map<Coord, nat>) {
    forall y :: Passable(b, p, y) && OnStartEdge(p, y) ==> y in dist && dist[y] <= Weight(b, p, y)
  }

  /** A cell not yet settled has exactly one entry carrying its current
      distance; a settled cell has none. */
  ghost predicate OpenCounts(heap: multiset<Entry>, dist: map<Coord, nat>, done: set<Coord>) {
    forall y :: y in dist ==> heap[Entry(dist[y], y)] == if y in done then 0 else 1
  }

  /** Every passable neighbour of `z` has been relaxed through `z`. */
  ghost predicate RelaxedAt(b: ValidBoard, p: Side, dist: map<Coord, nat>, z: Coord)
    requires z in dist
  {
    forall y :: Passable(b, p, y) && Adjacent(z, y) ==> y in dist && dist[y] <= dist[z] + Weight(b, p, y)
  }

  /** Settled cells: not on the far edge, relaxed, and at optimal distance. */
  ghost predicate DoneSound(b: ValidBoard, p: Side, dist: map<Coord, nat>, done: set<Coord>) {
    forall z :: z in done ==>
      z in dist && !OnFarEdge(b, p, z) && RelaxedAt(b, p, dist, z) && LowerBound(b, p, z, dist[z])
  }

  ghost predicate DijkstraInv(b: ValidBoard, p: Side, heap: multiset<Entry>, dist: map<Coord, nat>, done: set<Coord>) {
    && HeapSound(heap, dist)
    && DistSound(b, p, dist)
    && SeedsRecorded(b, p, dist)
    && OpenCounts(heap, dist, done)
    && DoneSound(b, p, dist, done)
  }

  /** The key fact: a route cheaper than every frontier entry ends in a
      settled cell, whose distance is at most the route's cost. */
  lemma {:induction false} CheapRouteEndsSettled(b: ValidBoard, p: Side, heap: multiset<Entry>, dist: map<Coord, nat>,
                                                 done: set<Coord>, bound: nat, path: seq<Coord>)
    requires DijkstraInv(b, p, heap, dist, done)
    requires forall e :: e in heap ==> e.d >= bound
    requires IsRoute(b, p, path)
    ensures RouteCost(b, p, path) < bound ==>
              path[|path| - 1] in done && dist[path[|path| - 1]] <= RouteCost(b, p, path)
    decreases |path|
  {
    var y := path[|path| - 1];
    if RouteCost(b, p, path) < bound {
      if |path| == 1 {
        assert RouteCost(b, p, path) == RouteCost(b, p, []) + Weight(b, p, y);
        assert y in dist && dist[y] <= Weight(b, p, y);
      } else {
        var prefix := path[..|path| - 1];
        RoutePrefix(b, p, path);
        CheapRouteEndsSettled(b, p, heap, dist, done, bound, prefix);
        var u := prefix[|prefix| - 1];
        assert u == path[|path| - 2];
        assert RelaxedAt(b, p, dist, u);
        assert Adjacent(u, y) && Passable(b, p, y);
        assert y in dist && dist[y] <= dist[u] + Weight(b, p, y);
      }
      assert heap[Entry(dist[y], y)] == if y in done then 0 else 1;
    }
  }

  /** The least entry bounds every entry's distance from below. */
  lemma LeastBoundsFrontier(e: Entry, heap: multiset<Entry>)
    requires IsLeast(e, heap)
    ensures forall f :: f in heap ==> f.d >= e.d
  {
    forall f | f in heap
      ensures f.d >= e.d
    {
      assert EntryLe(e, f);
    }
  }

  /** An entry popped at its current distance names an unsettled cell. */
  lemma PoppedUnsettled(heap: multiset<Entry>, dist: map<Coord, nat>, done: set<Coord>, e: Entry)
    requires OpenCounts(heap, dist, done)
    requires e in heap && e.x in dist && e.d == dist[e.x]
    ensures e.x !in done
  {
    assert heap[Entry(dist[e.x], e.x)] == if e.x in done then 0 else 1;
  }

  /** An entry popped at its current distance carries the optimal distance
      of its cell. */
  lemma PoppedIsOptimal(b: ValidBoard, p: Side, heap: multiset<Entry>, dist: map<Coord, nat>, done: set<Coord>, e: Entry)
    requires DijkstraInv(b, p, heap, dist, done)
    requires IsLeast(e, heap) && e.x in dist && e.d == dist[e.x]
    ensures LowerBound(b, p, e.x, e.d)
  {
    PoppedUnsettled(heap, dist, done, e);
    LeastBoundsFrontier(e, heap);
    forall path | IsRoute(b, p, path) && path[|path| - 1] == e.x
      ensures RouteCost(b, p, path) >= e.d
    {
      CheapRouteEndsSettled(b, p, heap, dist, done, e.d, path);
    }
  }

  /** No far-edge route is cheaper than the least frontier entry. */
  lemma FarRoutesCostAtLeast(b: ValidBoard, p: Side, heap: multiset<Entry>, dist: map<Coord, nat>, done: set<Coord>, e: Entry)
    requires DijkstraInv(b, p, heap, dist, done)
    requires IsLeast(e, heap)
    ensures forall path :: FarRoute(b, p, path) ==> RouteCost(b, p, path) >= e.d
  {
    LeastBoundsFrontier(e, heap);
    assert DoneSound(b, p, dist, done);
    forall path | FarRoute(b, p, path)
      ensures RouteCost(b, p, path) >= e.d
    {
      var z := path[|path| - 1];
      CheapRouteEndsSettled(b, p, heap, dist, done, e.d, path);
      assert z in done ==> !OnFarEdge(b, p, z);
    }
  }

  /** With an empty frontier no route reaches the far edge. */
  lemma EmptyFrontierBlocked(b: ValidBoard, p: Side, dist: map<Coord, nat>, done: set<Coord>)
    requires DijkstraInv(b, p, multiset{}, dist, done)
    ensures forall path :: IsRoute(b, p, path) ==> !OnFarEdge(b, p, path[|path| - 1])
  {
    forall path | IsRoute(b, p, path)
      ensures !OnFarEdge(b, p, path[|path| - 1])
    {
      CheapRouteEndsSettled(b, p, multiset{}, dist, done, RouteCost(b, p, path) + 1, path);
    }
  }

  // ---------------------------------------------------------------------
  // Settling one cell preserves the invariant

  /** The situation after popping a current, non-far entry `e` and relaxing
      its neighbours into `res`. */
  ghost predicate SettleStep(b: ValidBoard, p: Side, heap: multiset<Entry>, dist: map<Coord, nat>, done: set<Coord>,
                             e: Entry, res: (multiset<Entry>, map<Coord, nat>)) {
    && DijkstraInv(b, p, heap, dist, done)
    && IsLeast(e, heap) && e.x in dist && e.d == dist[e.x]
    && !OnFarEdge(b, p, e.x)
    && res == Relax(b, p, e.d, Neighbors(b, e.x), heap - multiset{e}, dist)
  }

  /** A settled cell's distance is at most the cost of reaching it through
      a neighbour reached at cost `d`. */
  lemma SettledBeatsDetour(b: ValidBoard, p: Side, dist: map<Coord, nat>, done: set<Coord>, x: Coord, d: nat, z: Coord)
    requires DoneSound(b, p, dist, done)
    requires Achievable(b, p, x, d)
    requires z in done && Passable(b, p, z) && Adjacent(x, z)
    ensures dist[z] <= d + Weight(b, p, z)
  {
    AchievableExtend(b, p, x, d, z);
    var path :| IsRoute(b, p, path) && path[|path| - 1] == z && RouteCost(b, p, path) == d + Weight(b, p, z);
    assert LowerBound(b, p, z, dist[z]);
  }

  /** Relaxing from a cell reached at cost `d` cannot improve a cell that
      was already settled, nor the cell itself. */
  lemma SettledUnchanged(b: ValidBoard, p: Side, h1: multiset<Entry>, dist: map<Coord, nat>, done: set<Coord>,
                         e: Entry, res: (multiset<Entry>, map<Coord, nat>))
    requires DoneSound(b, p, dist, done)
    requires Achievable(b, p, e.x, e.d)
    requires res == Relax(b, p, e.d, Neighbors(b, e.x), h1, dist)
    ensures forall z :: z in done || z == e.x ==> !Changed(dist, res.1, z)
  {
    forall z | z in done || z == e.x
      ensures !Changed(dist, res.1, z)
    {
      SettledCellUnchanged(b, p, dist, done, e.x, e.d, res.1, z);
    }
  }

  lemma SettledCellUnchanged(b: ValidBoard, p: Side, dist: map<Coord, nat>, done: set<Coord>, x: Coord, d: nat,
                             dist': map<Coord, nat>, z: Coord)
    requires DoneSound(b, p, dist, done) && Achievable(b, p, x, d)
    requires forall y :: y in dist ==> y in dist' && dist'[y] <= dist[y]
    requires forall y :: Changed(dist, dist', y) ==>
               y in Neighbors(b, x) && Passable(b, p, y) && dist'[y] == d + Weight(b, p, y)
    requires z in done || z == x
    ensures !Changed(dist, dist', z)
  {
    if z == x {
      assert !Adjacent(x, x);
      assert z !in Neighbors(b, x);
    } else if z in Neighbors(b, x) && Passable(b, p, z) {
      SettledBeatsDetour(b, p, dist, done, x, d, z);
    }
  }

  lemma SettleKeepsHeapSound(b: ValidBoard, p: Side, heap: multiset<Entry>, dist: map<Coord, nat>,
                             e: Entry, res: (multiset<Entry>, map<Coord, nat>))
    requires HeapSound(heap, dist)
    requires res == Relax(b, p, e.d, Neighbors(b, e.x), heap - multiset{e}, dist)
    ensures HeapSound(res.0, res.1)
  {
    forall f | f in res.0
      ensures f.x in res.1 && f.d >= res.1[f.x]
    {
      if (heap - multiset{e})[f] > 0 {
        assert f in heap;
      }
    }
  }

  /** One cell of the relaxed map still has a sound distance. */
  lemma RelaxedCellSound(b: ValidBoard, p: Side, dist: map<Coord, nat>, x: Coord, d: nat, dist': map<Coord, nat>, y: Coord)
    requires y in dist ==> Passable(b, p, y) && Achievable(b, p, y, dist[y])
    requires Achievable(b, p, x, d)
    requires y in dist'
    requires y in dist && !Changed(dist, dist', y) ==> dist'[y] == dist[y]
    requires Changed(dist, dist', y) ==> Passable(b, p, y) && Adjacent(x, y) && dist'[y] == d + Weight(b, p, y)
    ensures Passable(b, p, y) && Achievable(b, p, y, dist'[y])
  {
    if Changed(dist, dist', y) {
      AchievableExtend(b, p, x, d, y);
    }
  }

  lemma SettleKeepsDistSound(b: ValidBoard, p: Side, h1: multiset<Entry>, dist: map<Coord, nat>,
                             e: Entry, res: (multiset<Entry>, map<Coord, nat>))
    requires DistSound(b, p, dist)
    requires Achievable(b, p, e.x, e.d)
    requires res == Relax(b, p, e.d, Neighbors(b, e.x), h1, dist)
    ensures DistSound(b, p, res.1)
  {
    forall y | y in res.1
      ensures Passable(b, p, y) && Achievable(b, p, y, res.1[y])
    {
      RelaxedCellSound(b, p, dist, e.x, e.d, res.1, y);
    }
  }

  lemma SettleKeepsSeeds(b: ValidBoard, p: Side, h1: multiset<Entry>, dist: map<Coord, nat>,
                         e: Entry, res: (multiset<Entry>, map<Coord, nat>))
    requires SeedsRecorded(b, p, dist)
    requires res == Relax(b, p, e.d, Neighbors(b, e.x), h1, dist)
    ensures SeedsRecorded(b, p, res.1)
  {
  }

  lemma SettleKeepsOpenCounts(b: ValidBoard, p: Side, heap: multiset<Entry>, dist: map<Coord, nat>, done: set<Coord>,
                              e: Entry, res: (multiset<Entry>, map<Coord, nat>))
    requires HeapSound(heap, dist) && OpenCounts(heap, dist, done)
    requires e in heap && e.x in dist && e.d == dist[e.x] && e.x !in done
    requires res == Relax(b, p, e.d, Neighbors(b, e.x), heap - multiset{e}, dist)
    requires forall z :: z in done || z == e.x ==> !Changed(dist, res.1, z)
    ensures OpenCounts(res.0, res.1, done + {e.x})
  {
    var h1 := heap - multiset{e};
    forall y | y in res.1
      ensures res.0[Entry(res.1[y], y)] == if y in done + {e.x} then 0 else 1
    {
      var f := Entry(res.1[y], y);
      if Changed(dist, res.1, y) {
        // no older entry for y carries the new, smaller distance
        assert f !in heap;
        assert h1[f] == 0;
      } else {
        assert heap[Entry(dist[y], y)] == if y in done then 0 else 1;
      }
    }
  }

  lemma SettleKeepsDoneSound(b: ValidBoard, p: Side, h1: multiset<Entry>, dist: map<Coord, nat>, done: set<Coord>,
                             e: Entry, res: (multiset<Entry>, map<Coord, nat>))
    requires DoneSound(b, p, dist, done)
    requires e.x in dist && e.d == dist[e.x] && !OnFarEdge(b, p, e.x) && LowerBound(b, p, e.x, e.d)
    requires res == Relax(b, p, e.d, Neighbors(b, e.x), h1, dist)
    requires forall z :: z in done || z == e.x ==> !Changed(dist, res.1, z)
    ensures DoneSound(b, p, res.1, done + {e.x})
  {
    var d' := res.1;
    forall z | z in done + {e.x}
      ensures z in d' && !OnFarEdge(b, p, z) && RelaxedAt(b, p, d', z) && LowerBound(b, p, z, d'[z])
    {
      DoneCellSound(b, p, dist, done, e.x, d', z);
    }
  }

  /** One settled cell after relaxing the neighbours of `x`. */
  lemma DoneCellSound(b: ValidBoard, p: Side, dist: map<Coord, nat>, done: set<Coord>, x: Coord,
                      dist': map<Coord, nat>, z: Coord)
    requires DoneSound(b, p, dist, done)
    requires x in dist && !OnFarEdge(b, p, x) && LowerBound(b, p, x, dist[x])
    requires forall y :: y in dist ==> y in dist' && dist'[y] <= dist[y]
    requires forall y :: y in Neighbors(b, x) && Passable(b, p, y) ==> y in dist' && dist'[y] <= dist[x] + Weight(b, p, y)
    requires z in done + {x} && !Changed(dist, dist', z) && !Changed(dist, dist', x)
    ensures z in dist' && !OnFarEdge(b, p, z) && RelaxedAt(b, p, dist', z) && LowerBound(b, p, z, dist'[z])
  {
    assert dist'[z] == dist[z];
    if z != x {
      assert RelaxedAt(b, p, dist, z);
    }
  }

  lemma DistAchievable(b: ValidBoard, p: Side, dist: map<Coord, nat>, y: Coord)
    requires DistSound(b, p, dist) && y in dist
    ensures Achievable(b, p, y, dist[y])
  {
  }

  /** The facts about the popped entry that the preservation lemmas need. */
  lemma SettlePrelims(b: ValidBoard, p: Side, heap: multiset<Entry>, dist: map<Coord, nat>, done: set<Coord>,
                      e: Entry, res: (multiset<Entry>, map<Coord, nat>))
    requires SettleStep(b, p, heap, dist, done, e, res)
    ensures e in heap && e.x !in done
    ensures LowerBound(b, p, e.x, e.d) && Achievable(b, p, e.x, e.d)
    ensures forall z :: z in done || z == e.x ==> !Changed(dist, res.1, z)
  {
    PoppedUnsettled(heap, dist, done, e);
    PoppedIsOptimal(b, p, heap, dist, done, e);
    DistAchievable(b, p, dist, e.x);
    SettledUnchanged(b, p, heap - multiset{e}, dist, done, e, res);
  }

  // Each preservation lemma again, from the settle step itself; proving
  // them one at a time keeps each proof small.

  lemma StepKeepsHeapSound(b: ValidBoard, p: Side, heap: multiset<Entry>, dist: map<Coord, nat>, done: set<Coord>,
                           e: Entry, res: (multiset<Entry>, map<Coord, nat>))
    requires SettleStep(b, p, heap, dist, done, e, res)
    ensures HeapSound(res.0, res.1) && SeedsRecorded(b, p, res.1)
  {
    SettleKeepsHeapSound(b, p, heap, dist, e, res);
    SettleKeepsSeeds(b, p, heap - multiset{e}, dist, e, res);
  }

  lemma StepKeepsDistSound(b: ValidBoard, p: Side, heap: multiset<Entry>, dist: map<Coord, nat>, done: set<Coord>,
                           e: Entry, res: (multiset<Entry>, map<Coord, nat>))
    requires SettleStep(b, p, heap, dist, done, e, res)
    ensures DistSound(b, p, res.1)
  {
    SettlePrelims(b, p, heap, dist, done, e, res);
    SettleKeepsDistSound(b, p, heap - multiset{e}, dist, e, res);
  }

  lemma StepKeepsOpenCounts(b: ValidBoard, p: Side, heap: multiset<Entry>, dist: map<Coord, nat>, done: set<Coord>,
                            e: Entry, res: (multiset<Entry>, map<Coord, nat>))
    requires SettleStep(b, p, heap, dist, done, e, res)
    ensures OpenCounts(res.0, res.1, done + {e.x})
  {
    SettlePrelims(b, p, heap, dist, done, e, res);
    SettleKeepsOpenCounts(b, p, heap, dist, done, e, res);
  }

  lemma StepKeepsDoneSound(b: ValidBoard, p: Side, heap: multiset<Entry>, dist: map<Coord, nat>, done: set<Coord>,
                           e: Entry, res: (multiset<Entry>, map<Coord, nat>))
    requires SettleStep(b, p, heap, dist, done, e, res)
    ensures DoneSound(b, p, res.1, done + {e.x})
  {
    SettlePrelims(b, p, heap, dist, done, e, res);
    SettleKeepsDoneSound(b, p, heap - multiset{e}, dist, done, e, res);
  }

  /** Settling the least current entry preserves the invariant, with its
      cell added to the settled set. */
  lemma SettleKeepsInv(b: ValidBoard, p: Side, heap: multiset<Entry>, dist: map<Coord, nat>, done: set<Coord>,
                       e: Entry, res: (multiset<Entry>, map<Coord, nat>))
    requires SettleStep(b, p, heap, dist, done, e, res)
    ensures DijkstraInv(b, p, res.0, res.1, done + {e.x})
  {
    StepKeepsHeapSound(b, p, heap, dist, done, e, res);
    StepKeepsDistSound(b, p, heap, dist, done, e, res);
    StepKeepsOpenCounts(b, p, heap, dist, done, e, res);
    StepKeepsDoneSound(b, p, heap, dist, done, e, res);
  }

  // ---------------------------------------------------------------------
  // Stale entries, seeding, and the loop

  /** Dropping an entry whose distance has since been improved keeps the
      frontier part of the invariant. */
  lemma StaleKeepsFrontier(heap: multiset<Entry>, dist: map<Coord, nat>, done: set<Coord>, e: Entry)
    requires HeapSound(heap, dist) && OpenCounts(heap, dist, done)
    requires e in heap && e.x in dist && e.d > dist[e.x]
    ensures HeapSound(heap - multiset{e}, dist) && OpenCounts(heap - multiset{e}, dist, done)
  {
    var rest := heap - multiset{e};
    forall f | f in rest
      ensures f.x in dist && f.d >= dist[f.x]
    {
      assert f in heap;
    }
    forall y | y in dist
      ensures rest[Entry(dist[y], y)] == if y in done then 0 else 1
    {
      assert Entry(dist[y], y) != e;
    }
  }

  lemma StaleKeepsInv(b: ValidBoard, p: Side, heap: multiset<Entry>, dist: map<Coord, nat>, done: set<Coord>, e: Entry)
    requires DijkstraInv(b, p, heap, dist, done)
    requires e in heap && e.x in dist && e.d > dist[e.x]
    ensures DijkstraInv(b, p, heap - multiset{e}, dist, done)
  {
    StaleKeepsFrontier(heap, dist, done, e);
  }

  /** The single-cell route to a passable start-edge cell. */
  lemma SeedAchievable(b: ValidBoard, p: Side, y: Coord)
    requires Passable(b, p, y) && OnStartEdge(p, y)
    ensures Achievable(b, p, y, Weight(b, p, y))
  {
    var path := [y];
    assert path[..0] == [];
    assert IsRoute(b, p, path) && RouteCost(b, p, path) == Weight(b, p, y);
  }

  lemma SeedsDistSound(b: ValidBoard, p: Side, s: (multiset<Entry>, map<Coord, nat>))
    requires s == SeedLoop(b, p, 0, multiset{}, map[])
    ensures DistSound(b, p, s.1) && SeedsRecorded(b, p, s.1)
  {
    forall y | y in s.1
      ensures Passable(b, p, y) && Achievable(b, p, y, s.1[y])
    {
      SeedAchievable(b, p, y);
    }
    forall y | Passable(b, p, y) && OnStartEdge(p, y)
      ensures y in s.1 && s.1[y] <= Weight(b, p, y)
    {
      assert EdgeIndex(p, y) >= 0;
    }
  }

  lemma SeedsFrontier(b: ValidBoard, p: Side, s: (multiset<Entry>, map<Coord, nat>))
    requires s == SeedLoop(b, p, 0, multiset{}, map[])
    ensures HeapSound(s.0, s.1) && OpenCounts(s.0, s.1, {})
  {
    forall f | f in s.0
      ensures f.x in s.1 && f.d >= s.1[f.x]
    {
      assert s.0[f] > 0;
    }
  }

  /** The seeded frontier satisfies the invariant with nothing settled. */
  lemma SeedsEstablishInv(b: ValidBoard, p: Side)
    ensures var s := SeedLoop(b, p, 0, multiset{}, map[]);
            DijkstraInv(b, p, s.0, s.1, {})
  {
    var s := SeedLoop(b, p, 0, multiset{}, map[]);
    SeedsDistSound(b, p, s);
    SeedsFrontier(b, p, s);
  }

  /** The cheapest far-edge route costs exactly `c`. */
  ghost predicate ShortestFar(b: ValidBoard, p: Side, c: nat) {
    && (exists path :: FarRoute(b, p, path) && RouteCost(b, p, path) == c)
    && (forall path :: FarRoute(b, p, path) ==> RouteCost(b, p, path) >= c)
  }

  /** No route reaches the far edge. */
  ghost predicate Blocked(b: ValidBoard, p: Side) {
    forall path :: IsRoute(b, p, path) ==> !OnFarEdge(b, p, path[|path| - 1])
  }

  /** A current entry popped on the far edge carries the shortest cost. */
  lemma PoppedFarIsShortest(b: ValidBoard, p: Side, heap: multiset<Entry>, dist: map<Coord, nat>, done: set<Coord>, e: Entry)
    requires DijkstraInv(b, p, heap, dist, done)
    requires IsLeast(e, heap) && e.x in dist && e.d == dist[e.x] && OnFarEdge(b, p, e.x)
    ensures ShortestFar(b, p, e.d)
  {
    FarRoutesCostAtLeast(b, p, heap, dist, done, e);
    DistAchievable(b, p, dist, e.x);
    var path :| IsRoute(b, p, path) && path[|path| - 1] == e.x && RouteCost(b, p, path) == e.d;
    assert FarRoute(b, p, path);
  }

  /** Settling a cell that was not yet settled shrinks the unsettled part
      of the board. */
  lemma SettleShrinks(b: ValidBoard, done: set<Coord>, x: Coord)
    requires x in AllCells(b) && x !in done
    ensures |AllCells(b) - (done + {x})| < |AllCells(b) - done|
  {
    var a := AllCells(b);
    assert a - done == (a - (done + {x})) + {x};
  }

  /** The popped entry names a recorded cell. */
  lemma PoppedRecorded(heap: multiset<Entry>, dist: map<Coord, nat>, e: Entry)
    requires HeapSound(heap, dist) && IsLeast(e, heap)
    ensures e.x in dist && e.d >= dist[e.x]
    ensures |heap - multiset{e}| < |heap|
  {
  }

  /** A settle step re-establishes the invariant and makes progress. */
  lemma SettleAdvances(b: ValidBoard, p: Side, heap: multiset<Entry>, dist: map<Coord, nat>, done: set<Coord>,
                       e: Entry, res: (multiset<Entry>, map<Coord, nat>))
    requires SettleStep(b, p, heap, dist, done, e, res)
    ensures DijkstraInv(b, p, res.0, res.1, done + {e.x})
    ensures |AllCells(b) - (done + {e.x})| < |AllCells(b) - done|
  {
    SettleKeepsInv(b, p, heap, dist, done, e, res);
    PoppedUnsettled(heap, dist, done, e);
    assert Passable(b, p, e.x);
    SettleShrinks(b, done, e.x);
  }

  /** The `while heap` loop: stop with `Unreachable` once the frontier is
      empty. */
  function DijkstraLoop(b: ValidBoard, p: Side, heap: multiset<Entry>, dist: map<Coord, nat>, ghost done: set<Coord>)
    : (r: Cost)
    requires DijkstraInv(b, p, heap, dist, done)
    ensures r.Finite? ==> ShortestFar(b, p, r.n)
    ensures r.Unreachable? ==> Blocked(b, p)
    decreases |AllCells(b) - done|, |heap|, 2
  {
    if |heap| == 0 then
      EmptyFrontierBlocked(b, p, dist, done);
      Unreachable
    else
      DijkstraPop(b, p, heap, dist, done)
  }

  /** Pop the least entry and skip it if a shorter distance to its cell has
      been recorded since it was pushed. */
  function DijkstraPop(b: ValidBoard, p: Side, heap: multiset<Entry>, dist: map<Coord, nat>, ghost done: set<Coord>)
    : (r: Cost)
    requires DijkstraInv(b, p, heap, dist, done) && |heap| > 0
    ensures r.Finite? ==> ShortestFar(b, p, r.n)
    ensures r.Unreachable? ==> Blocked(b, p)
    decreases |AllCells(b) - done|, |heap|, 1
  {
    var e := HeapMin(heap);
    PoppedRecorded(heap, dist, e);
    if e.d > dist[e.x] then
      StaleKeepsInv(b, p, heap, dist, done, e);
      DijkstraLoop(b, p, heap - multiset{e}, dist, done)
    else
      DijkstraSettle(b, p, heap, dist, done, e)
  }

  /** A current entry: stop with its distance on the far edge, otherwise
      relax its neighbours and continue. */
  function DijkstraSettle(b: ValidBoard, p: Side, heap: multiset<Entry>, dist: map<Coord, nat>, ghost done: set<Coord>,
                          e: Entry)
    : (r: Cost)
    requires DijkstraInv(b, p, heap, dist, done)
    requires IsLeast(e, heap) && e.x in dist && e.d == dist[e.x]
    ensures r.Finite? ==> ShortestFar(b, p, r.n)
    ensures r.Unreachable? ==> Blocked(b, p)
    decreases |AllCells(b) - done|, |heap|, 0
  {
    if OnFarEdge(b, p, e.x) then
      PoppedFarIsShortest(b, p, heap, dist, done, e);
      Finite(e.d)
    else
      var res := Relax(b, p, e.d, Neighbors(b, e.x), heap - multiset{e}, dist);
      SettleAdvances(b, p, heap, dist, done, e, res);
      DijkstraLoop(b, p, res.0, res.1, done + {e.x})
  }

  /** `_shortest_path_cost`: the least number of empty cells on any route
      from the side's start edge to its far edge, or `Unreachable` exactly
      when the opponent's stones cut every such route. */
  function ShortestPathCost(b: ValidBoard, p: Side): (r: Cost)
    ensures r.Finite? ==> ShortestFar(b, p, r.n)
    ensures r.Unreachable? <==> Blocked(b, p)
  {
    var seeded := SeedLoop(b, p, 0, multiset{}, map[]);
    SeedsEstablishInv(b, p);
    DijkstraLoop(b, p, seeded.0, seeded.1, {})
  }

  // ---------------------------------------------------------------------
  // Consequences

  /** A route costs nothing exactly when every cell on it is the side's
      own stone. */
  lemma {:induction false} RouteCostZero(b: ValidBoard, p: Side, path: seq<Coord>)
    requires AllInBounds(b, path)
    ensures RouteCost(b, p, path) == 0 <==> forall i :: 0 <= i < |path| ==> At(b, path[i]) == p
    decreases |path|
  {
    if |path| > 0 {
      var prefix := path[..|path| - 1];
      RouteCostZero(b, p, prefix);
      assert forall i :: 0 <= i < |prefix| ==> prefix[i] == path[i];
    }
  }

  /** The free routes are exactly the winning-chain candidates. */
  lemma ChainIffFreeRoute(b: ValidBoard, p: Side, path: seq<Coord>)
    ensures IsChain(b, p, path) <==> IsRoute(b, p, path) && RouteCost(b, p, path) == 0
  {
    if IsChain(b, p, path) || IsRoute(b, p, path) {
      RouteCostZero(b, p, path);
    }
  }

  /** `_shortest_path_cost` is 0 exactly when `check_win` holds. */
  lemma CostZeroIffWin(b: ValidBoard, p: Side)
    ensures ShortestPathCost(b, p) == Finite(0) <==> CheckWin(b, p)
  {
    ShortestFarUnique(b, p, 0);
    if ShortestFar(b, p, 0) {
      FreeFarRouteIsChain(b, p);
    }
    if CheckWin(b, p) {
      WinningChainIsFree(b, p);
    }
  }

  lemma FreeFarRouteIsChain(b: ValidBoard, p: Side)
    requires ShortestFar(b, p, 0)
    ensures HasWinningChain(b, p)
  {
    var path :| FarRoute(b, p, path) && RouteCost(b, p, path) == 0;
    ChainIffFreeRoute(b, p, path);
    assert IsChain(b, p, path) && OnFarEdge(b, p, path[|path| - 1]);
  }

  lemma WinningChainIsFree(b: ValidBoard, p: Side)
    requires HasWinningChain(b, p)
    ensures ShortestFar(b, p, 0)
  {
    var path :| IsChain(b, p, path) && OnFarEdge(b, p, path[|path| - 1]);
    ChainIffFreeRoute(b, p, path);
    assert FarRoute(b, p, path);
  }

  predicate Distinct(s: seq<Coord>) {
    forall i, j :: 0 <= i < j < |s| ==> s[i] != s[j]
  }

  /** The empty cells a route passes through. */
  ghost function EmptyOn(b: ValidBoard, path: seq<Coord>): set<Coord>
    requires AllInBounds(b, path)
  {
    set i | 0 <= i < |path| && At(b, path[i]) == Empty :: path[i]
  }

  /** A route that visits no cell twice costs the number of empty cells
      on it. */
  lemma {:induction false} DistinctRouteCost(b: ValidBoard, p: Side, path: seq<Coord>)
    requires AllInBounds(b, path) && forall i :: 0 <= i < |path| ==> Passable(b, p, path[i])
    requires Distinct(path)
    ensures RouteCost(b, p, path) == |EmptyOn(b, path)|
    decreases |path|
  {
    if |path| > 0 {
      var n := |path| - 1;
      var prefix := path[..n];
      DistinctRouteCost(b, p, prefix);
      EmptyOnSnoc(b, path);
    }
  }

  /** The empty cells of a repetition-free route: those of its prefix,
      plus the last cell if that is empty. */
  lemma EmptyOnSnoc(b: ValidBoard, path: seq<Coord>)
    requires AllInBounds(b, path) && Distinct(path) && |path| > 0
    ensures var n := |path| - 1;
            && Distinct(path[..n])
            && |EmptyOn(b, path)| == |EmptyOn(b, path[..n])| + (if At(b, path[n]) == Empty then 1 else 0)
  {
    var n := |path| - 1;
    var y := path[n];
    var extra: set<Coord> := if At(b, y) == Empty then {y} else {};
    EmptyOnSplit(b, path);
    assert y !in path[..n];
    assert y !in EmptyOn(b, path[..n]);
    assert EmptyOn(b, path) == EmptyOn(b, path[..n]) + extra;
  }

  lemma EmptyOnSplit(b: ValidBoard, path: seq<Coord>)
    requires AllInBounds(b, path) && |path| > 0
    ensures var n := |path| - 1;
            && (forall z :: z in EmptyOn(b, path) ==> z in EmptyOn(b, path[..n]) || (z == path[n] && At(b, z) == Empty))
            && (forall z :: z in EmptyOn(b, path[..n]) ==> z in EmptyOn(b, path))
            && (At(b, path[n]) == Empty ==> path[n] in EmptyOn(b, path))
            && (forall z :: z in EmptyOn(b, path[..n]) ==> z in path[..n])
  {
    var n := |path| - 1;
    var prefix := path[..n];
    forall z | z in EmptyOn(b, path)
      ensures z in EmptyOn(b, prefix) || (z == path[n] && At(b, z) == Empty)
    {
      var i :| 0 <= i < |path| && At(b, path[i]) == Empty && path[i] == z;
      if i < n {
        assert prefix[i] == z;
      }
    }
    forall z | z in EmptyOn(b, prefix)
      ensures z in EmptyOn(b, path) && z in prefix
    {
      var i :| 0 <= i < |prefix| && At(b, prefix[i]) == Empty && prefix[i] == z;
      assert path[i] == z;
    }
  }

  /** A prefix of a route ending at position `k` is a route no dearer. */
  lemma {:induction false} RoutePrefixAt(b: ValidBoard, p: Side, path: seq<Coord>, k: nat)
    requires IsRoute(b, p, path) && k < |path|
    ensures IsRoute(b, p, path[..k + 1])
    ensures RouteCost(b, p, path[..k + 1]) <= RouteCost(b, p, path)
    decreases |path|
  {
    if k + 1 < |path| {
      var prefix := path[..|path| - 1];
      RoutePrefix(b, p, path);
      RoutePrefixAt(b, p, prefix, k);
      assert prefix[..k + 1] == path[..k + 1];
    } else {
      assert path[..k + 1] == path;
    }
  }

  /** Loop erasure: every route can be replaced by one that visits no cell
      twice, ends in the same cell, and costs no more. */
  lemma {:induction false} ShortenRoute(b: ValidBoard, p: Side, path: seq<Coord>) returns (q: seq<Coord>)
    requires IsRoute(b, p, path)
    ensures IsRoute(b, p, q) && Distinct(q)
    ensures q[|q| - 1] == path[|path| - 1]
    ensures RouteCost(b, p, q) <= RouteCost(b, p, path)
    decreases |path|
  {
    if |path| == 1 {
      q := path;
    } else {
      var prefix := path[..|path| - 1];
      var y := path[|path| - 1];
      RoutePrefix(b, p, path);
      var q' := ShortenRoute(b, p, prefix);
      if j :| 0 <= j < |q'| && q'[j] == y {
        q := CutAtRepeat(b, p, q', j);
      } else {
        q := ExtendFresh(b, p, q', y);
      }
    }
  }

  /** Cutting a repetition-free route just after a cell it visits. */
  lemma CutAtRepeat(b: ValidBoard, p: Side, q: seq<Coord>, j: nat) returns (c: seq<Coord>)
    requires IsRoute(b, p, q) && Distinct(q) && j < |q|
    ensures c == q[..j + 1]
    ensures IsRoute(b, p, c) && Distinct(c) && c[|c| - 1] == q[j]
    ensures RouteCost(b, p, c) <= RouteCost(b, p, q)
  {
    RoutePrefixAt(b, p, q, j);
    c := q[..j + 1];
  }

  /** Extending a repetition-free route by a cell it does not visit. */
  lemma ExtendFresh(b: ValidBoard, p: Side, q: seq<Coord>, y: Coord) returns (c: seq<Coord>)
    requires IsRoute(b, p, q) && Distinct(q) && y !in q
    requires Passable(b, p, y) && Adjacent(q[|q| - 1], y)
    ensures c == q + [y]
    ensures IsRoute(b, p, c) && Distinct(c) && c[|c| - 1] == y
    ensures RouteCost(b, p, c) == RouteCost(b, p, q) + Weight(b, p, y)
  {
    RouteExtend(b, p, q, y);
    c := q + [y];
  }

  /** A finite path cost never exceeds the number of empty cells. */
  lemma CostAtMostEmptyCells(b: ValidBoard, p: Side)
    ensures ShortestPathCost(b, p).Finite? ==> ShortestPathCost(b, p).n <= |EmptyCells(b)|
  {
    var r := ShortestPathCost(b, p);
    if r.Finite? {
      var path :| FarRoute(b, p, path) && RouteCost(b, p, path) == r.n;
      var q := ShortenRoute(b, p, path);
      assert FarRoute(b, p, q);
      DistinctRouteCost(b, p, q);
      var empties := set x | x in EmptyCells(b);
      assert EmptyOn(b, q) <= empties;
      SubsetCardinality(EmptyOn(b, q), empties);
      IncreasingCardinality(EmptyCells(b));
    }
  }

  /** The shortest cost is determined by the routes alone: `ShortestFar`
      holds for exactly the value the search returns. */
  lemma ShortestFarUnique(b: ValidBoard, p: Side, m: nat)
    ensures ShortestFar(b, p, m) <==> ShortestPathCost(b, p) == Finite(m)
  {
    if ShortestFar(b, p, m) {
      var path :| FarRoute(b, p, path) && RouteCost(b, p, path) == m;
      var r := ShortestPathCost(b, p);
      assert !Blocked(b, p);
      var q :| FarRoute(b, p, q) && RouteCost(b, p, q) == r.n;
    }
  }
}
