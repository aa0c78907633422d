/** The N x N Hex board: cells, hex adjacency, guarded placement, copying
    and the row-major list of cells of one kind. */
module HexBoard {
  import opened Utils

  /** A (row, column) pair; may lie off the board. */
  type Coord = (int, int)

  /** The six hex neighbour offsets, in the order the board scans them. */
  const NeighborOffsets: seq<Coord> := [(-1, 0), (-1, 1), (0, -1), (0, 1), (1, -1), (1, 0)]

  datatype Board = Board(size: nat, grid: seq<seq<Cell>>) {
    /** The grid has `size` rows of `size` cells. */
    predicate WellFormed() {
      |grid| == size && forall r :: 0 <= r < |grid| ==> |grid[r]| == size
    }
  }

  type ValidBoard = b: Board | b.WellFormed() witness Board(0, [])

  /** `HexBoard(size)`: every cell empty. */
  function NewBoard(size: nat): (b: ValidBoard)
    ensures b.size == size
    ensures forall r, c :: 0 <= r < size && 0 <= c < size ==> b.grid[r][c] == Empty
  {
    Board(size, seq(size, _ => seq(size, _ => Empty)))
  }

  predicate InBounds(b: ValidBoard, x: Coord) {
    0 <= x.0 < b.size && 0 <= x.1 < b.size
  }

  function At(b: ValidBoard, x: Coord): Cell
    requires InBounds(b, x)
  {
    b.grid[x.0][x.1]
  }

  /** `y` is one hex step away from `x`. */
  predicate Adjacent(x: Coord, y: Coord) {
    (y.0 - x.0, y.1 - x.1) in NeighborOffsets
  }

  /** The offset list is closed under negation, so adjacency is symmetric. */
  lemma AdjacentSymmetric(x: Coord, y: Coord)
    ensures Adjacent(x, y) <==> Adjacent(y, x)
  {
  }

  /** `get_neighbors`: the in-bounds cells one offset away, in offset order. */
  function Neighbors(b: ValidBoard, x: Coord): (ns: seq<Coord>)
    ensures |ns| <= |NeighborOffsets|
    ensures forall y :: y in ns <==> InBounds(b, y) && Adjacent(x, y)
  {
    NeighborsVia(b, x, NeighborOffsets)
  }

  function NeighborsVia(b: ValidBoard, x: Coord, offsets: seq<Coord>): (ns: seq<Coord>)
    ensures |ns| <= |offsets|
    ensures forall y :: y in ns <==> InBounds(b, y) && (y.0 - x.0, y.1 - x.1) in offsets
  {
    if |offsets| == 0 then []
    else
      var y := (x.0 + offsets[0].0, x.1 + offsets[0].1);
      var rest := NeighborsVia(b, x, offsets[1..]);
      assert forall o :: o in offsets <==> o == offsets[0] || o in offsets[1..];
      if InBounds(b, y) then [y] + rest else rest
  }

  /** Neighbourhood is symmetric between in-bounds cells. */
  lemma NeighborsSymmetric(b: ValidBoard, x: Coord, y: Coord)
    requires InBounds(b, x)
    ensures y in Neighbors(b, x) <==> InBounds(b, y) && x in Neighbors(b, y)
  {
    AdjacentSymmetric(x, y);
  }

  /** `place`: refuses an off-board or occupied cell, leaving the board as it
      was; otherwise sets exactly that cell to `p`. */
  function Place(b: ValidBoard, x: Coord, p: Side): (res: (bool, ValidBoard))
    ensures !InBounds(b, x) ==> res == (false, b)
    ensures InBounds(b, x) && At(b, x) != Empty ==> res == (false, b)
    ensures InBounds(b, x) && At(b, x) == Empty ==>
      && res.0
      && res.1.size == b.size
      && At(res.1, x) == p
      && forall y :: InBounds(b, y) && y != x ==> At(res.1, y) == At(b, y)
  {
    if !InBounds(b, x) then (false, b)
    else if At(b, x) != Empty then (false, b)
    else
      var row := b.grid[x.0][x.1 := p];
      (true, Board(b.size, b.grid[x.0 := row]))
  }

  /** `clone`: a row-by-row copy, equal to the source in size and contents.
      Boards are values, so later placements on the copy cannot reach the
      source. */
  function Clone(b: ValidBoard): (c: ValidBoard)
    ensures c == b
  {
    var rows := seq(|b.grid|, i requires 0 <= i < |b.grid| => b.grid[i][..]);
    assert rows == b.grid;
    Board(b.size, rows)
  }

  // ---------------------------------------------------------------------
  // Row-major cell lists

  predicate RowMajorLess(x: Coord, y: Coord) {
    x.0 < y.0 || (x.0 == y.0 && x.1 < y.1)
  }

  predicate StrictlyIncreasing(s: seq<Coord>) {
    forall i, j :: 0 <= i < j < |s| ==> RowMajorLess(s[i], s[j])
  }

  /** Cells `(r, c')` with `c <= c'` holding `v`, left to right. */
  function RowCellsFrom(b: ValidBoard, v: Cell, r: nat, c: nat): (s: seq<Coord>)
    requires r < b.size
    ensures StrictlyIncreasing(s)
    ensures forall x :: x in s <==> x.0 == r && c <= x.1 < b.size && At(b, x) == v
    decreases b.size - c
  {
    if c >= b.size then []
    else
      var rest := RowCellsFrom(b, v, r, c + 1);
      if At(b, (r, c)) == v then [(r, c)] + rest else rest
  }

  /** Cells in rows `r..size-1` holding `v`, in row-major order. */
  function CellsFrom(b: ValidBoard, v: Cell, r: nat): (s: seq<Coord>)
    ensures StrictlyIncreasing(s)
    ensures forall x :: x in s <==> InBounds(b, x) && r <= x.0 && At(b, x) == v
    decreases b.size - r
  {
    if r >= b.size then []
    else
      var row := RowCellsFrom(b, v, r, 0);
      var rest := CellsFrom(b, v, r + 1);
      assert forall i, j :: 0 <= i < |row| && 0 <= j < |rest| ==> RowMajorLess(row[i], rest[j]) by {
        forall i, j | 0 <= i < |row| && 0 <= j < |rest|
          ensures RowMajorLess(row[i], rest[j])
        {
          assert row[i] in row && rest[j] in rest;
        }
      }
      row + rest
  }

  /** Every cell holding `v`, in row-major order. */
  function CellsOf(b: ValidBoard, v: Cell): (s: seq<Coord>)
    ensures StrictlyIncreasing(s)
    ensures forall x :: x in s <==> InBounds(b, x) && At(b, x) == v
  {
    CellsFrom(b, v, 0)
  }

  /** `get_empty_cells`: exactly the empty cells, each once, in strictly
      increasing row-major order. */
  function EmptyCells(b: ValidBoard): (s: seq<Coord>)
    ensures StrictlyIncreasing(s)
    ensures forall x :: x in s <==> InBounds(b, x) && At(b, x) == Empty
    ensures forall i, j :: 0 <= i < j < |s| ==> s[i] != s[j]
  {
    CellsOf(b, Empty)
  }

  /** The number of stones of `p` on the board. */
  function StoneCount(b: ValidBoard, p: Side): nat {
    |CellsOf(b, p)|
  }

  /** The cells of `p` as a set. */
  function StoneSet(b: ValidBoard, p: Side): (s: set<Coord>)
    ensures forall x :: x in s <==> InBounds(b, x) && At(b, x) == p
  {
    set x | x in CellsOf(b, p)
  }

  /** A strictly increasing list has as many elements as its set. */
  lemma {:induction false} IncreasingCardinality(s: seq<Coord>)
    requires StrictlyIncreasing(s)
    ensures |set x | x in s| == |s|
  {
    if |s| > 0 {
      var rest := s[1..];
      IncreasingCardinality(rest);
      assert s[0] !in rest;
      assert (set x | x in s) == {s[0]} + (set x | x in rest);
    }
  }

  lemma StoneSetSize(b: ValidBoard, p: Side)
    ensures |StoneSet(b, p)| == StoneCount(b, p)
  {
    IncreasingCardinality(CellsOf(b, p));
  }
}
