# Hex engine core in Dafny

A Dafny model of the engine behind a command-line Hex game. The model covers the board, win detection, the path-cost heuristics, and the two game-tree searches the computer players use.

- **Hex rules.** Two sides alternate placing stones on an N x N rhombus of hexagonal cells.
  - RED tries to join the top row to the bottom row.
  - BLUE tries to join the left column to the right column.
- **Board.** The board is a value `Board(size, grid)`.
  - Placing a stone returns the success flag and the new board.
  - `clone` is the identity on values.
- **Win detection.** `check_win` and the connected-stone count are the same breadth-first traversal. Each is written as a recursive function over `(queue, visited)` with a ghost invariant.
  - `check_win` is proved to hold exactly when a chain of the side's stones joins its two edges.
  - The count is proved to be the size of the set of stones joined to the start edge.
- **Path cost.** `_shortest_path_cost` is Dijkstra's algorithm.
  - The frontier is a multiset of `(d, row, col)` entries, popped least-first in tuple order as `heapq` does.
  - `dist` is a map in which an absent key stands for `inf`.
  - The result is proved to be the least number of empty cells on any route from the start edge to the far edge. It is `inf` exactly when no route exists.
- **Evaluators.** The three evaluators return a `Score`: `-inf`, a real number, or `+inf`.
- **Move ordering.** `order_moves_by_heuristic` is a stable insertion sort by key.
- **Minimax.** `minimax` is proved equal to a reference game-tree value `Value`.
- **Alpha-beta.** `alphabeta` is proved to agree with `Value` on every window through a clamp theorem: for `lo < hi`, `clamp(lo, hi, alphabeta(lo, hi)) == clamp(lo, hi, Value)`. Two consequences follow:
  - with the full window it returns the minimax score;
  - its move is optimal.
- **Players.** The three computer players fix the depth, evaluator and ordering.

Modules, one per file:

- `Utils` (utils.dfy): sides, cell contents and move notation.
- `HexBoard` (board.dfy).
- `Connectivity` (connectivity.dfy): `check_win` and `_count_connected_to_start`.
- `PathCost` (pathcost.dfy): `_shortest_path_cost`.
- `Scores` (scores.dfy): extended reals.
- `Evaluation` (evaluation.dfy).
- `Ordering` (ordering.dfy).
- `Search` (search.dfy): `minimax`, `alphabeta`, and the reference value.
- `SearchEquivalence` (equivalence.dfy).
- `Players` (players.dfy).

## Model

| member | source | states |
|---|---|---|
| Utils.Opponent | utils.py:11-13 | The opponent of a side is the other side, never the side itself. |
| Utils.OpponentInvolution | utils.py:11-13 | Taking the opponent twice gives back the side. RED and BLUE are each other's opponent. |
| Utils.ColLabel | utils.py:16-18 | The column letter is an upper-case letter exactly for columns 0..25. Reading the letter back gives the column. |
| Utils.Upper | utils.py:26 | Upper-casing keeps the length and maps each character on its own (lower-case ASCII letters to upper case, everything else unchanged). |
| Utils.StripLeftDropsSpace | utils.py:26 | Left stripping removes exactly a leading run of whitespace: the result is a suffix of the text, everything dropped is whitespace, and the result does not start with whitespace. |
| Utils.StripRightDropsSpace | utils.py:26 | Right stripping removes exactly a trailing run of whitespace: the result is a prefix of the text, everything dropped is whitespace, and the result does not end with whitespace. |
| Utils.NatToDecimal | utils.py:42 | The decimal text of a natural number is all digits, reads back as the number, and has no leading zero. |
| Utils.IntToDecimal | utils.py:42 | The decimal text of an integer reads back as its value, with a leading minus sign exactly for negative values. It has no leading zero: a text starting with `0` is exactly `"0"`, and a negative number's first digit is not `0`. |
| Utils.FormatMove | utils.py:40-42 | The move text starts with the column's letter and continues with the 1-based row number in decimal. For a row on the board, the number has no leading zero. |
| Utils.ParseMove | utils.py:21-37 | Parsing rejects normalized text shorter than two characters. An accepted move comes from an upper-case letter followed by digits, lies on the board, and has the column given by the letter and the row given by the number minus one. Conversely, every letter followed by digits whose column and row lie on the board is accepted as exactly that move. |
| Utils.ParseFormatRoundTrip | utils.py:21-42 | Parsing the text of any on-board cell gives back that cell. |
| Utils.NormalizeFormatted | utils.py:26 | Stripping and upper-casing leave formatted move text unchanged. |
| Utils.ParseIgnoresSurroundingSpace | utils.py:26 | Leading and trailing whitespace never changes the parse. |
| Utils.ParseIgnoresCase | utils.py:26 | Upper-casing the input first never changes the parse. |
| HexBoard.NewBoard | board.py:13-15 | A new board has the requested size and every cell empty. |
| HexBoard.AdjacentSymmetric | board.py:7 | The six neighbour offsets are closed under negation, so adjacency is symmetric. |
| HexBoard.Neighbors | board.py:27-34 | The neighbour list holds exactly the on-board cells at one of the six offsets, with at most six entries. |
| HexBoard.NeighborsVia | board.py:29-34 | Filtering a list of offsets keeps exactly the on-board cells at those offsets. |
| HexBoard.NeighborsSymmetric | board.py:27-34 | For an on-board cell x, y is a neighbour of x exactly when y is on the board and x is a neighbour of y. |
| HexBoard.Place | board.py:36-43 | Placing off the board or on an occupied cell fails and leaves the board unchanged. Placing on an empty cell succeeds, fills exactly that cell with the side, and changes no other cell. |
| HexBoard.Clone | board.py:17-21 | The copy equals the original. |
| HexBoard.EmptyCells | board.py:45-52 | The list holds exactly the empty on-board cells, each once, in strictly increasing row-major order. |
| HexBoard.StoneSetSize | evaluation.py:16-21 | The stone count used by the evaluation (the length of the side's row-major cell list) equals the number of cells holding the side's stones. |
| Connectivity.StartCells | board.py:63-73 | The traversal starts from exactly the side's stones on its start edge (row 0 for RED, column 0 for BLUE). |
| Connectivity.Expand | board.py:82-85 | Expanding a cell visits and enqueues exactly the not-yet-visited neighbours that hold the side's stones. Queue and visited set grow by the same amount. |
| Connectivity.SeedsEstablishInv | board.py:63-73 | The seeded queue and visited set satisfy the traversal invariant: visited cells are reachable stones, the queue lies in the visited set, and every dequeued cell has all its same-side neighbours visited. |
| Connectivity.ExpandKeepsInv | board.py:75-85 | Popping a cell that is not on the far edge and expanding its neighbours keeps the traversal invariant. |
| Connectivity.ChainsStayVisited | board.py:75-87 | Once the queue is empty, every cell of every chain from the start edge has been visited. |
| Connectivity.WinSearch | board.py:75-87 | From any state satisfying the invariant, the loop answers true exactly when a chain of the side's stones joins its two edges. |
| Connectivity.NoChainWhenDone | board.py:87 | If the queue empties without reaching the far edge, no winning chain exists. |
| Connectivity.CheckWin | board.py:54-87 | `check_win` holds exactly when a chain of the side's stones joins its start edge to its far edge. |
| Connectivity.WinNeedsStartStone | board.py:63-73 | A side that has won owns a cell on its start edge. |
| Connectivity.ComponentSearch | evaluation.py:108-113 | The traversal without an early exit visits exactly the stones joined to the start edge. |
| Connectivity.VisitedIsReachSet | evaluation.py:108-115 | When the queue is empty, the visited set is exactly the set of stones joined to the start edge. |
| Connectivity.CountConnectedToStart | evaluation.py:90-115 | The count is the number of the side's stones joined to its start edge through its own stones. |
| Connectivity.CountAtMostStones | evaluation.py:90-115 | The count never exceeds the side's stone count. |
| Connectivity.CountNeedsStartStone | evaluation.py:97-106 | A positive count means the side owns a cell on its start edge. |
| Connectivity.WinIffComponentTouchesFarEdge | board.py:54-87 | A side has won exactly when the component counted from its start edge reaches its far edge. |
| PathCost.HeapMin | evaluation.py:60 | The popped entry is the least frontier entry in `(d, row, col)` tuple order. |
| PathCost.SeedLoop | evaluation.py:39-57 | Seeding records exactly the passable start-edge cells, at cost 0 for the side's stones and 1 for empty cells, with one frontier entry per recorded cell. |
| PathCost.SeedsEstablishInv | evaluation.py:39-57 | The seeded frontier and distances satisfy the Dijkstra invariant with nothing settled. |
| PathCost.RelaxOne | evaluation.py:69-74 | Relaxing one neighbour skips the opponent's stones, never raises a distance, and lowers the neighbour to the new cost when that is smaller. A new frontier entry is pushed exactly for a cell whose distance changed. |
| PathCost.Relax | evaluation.py:68-74 | The inner loop records every passable neighbour at a cost no more than the settled cost plus the cell's weight, and changes only neighbours. Each change pushes exactly one entry. |
| PathCost.CheapRouteEndsSettled | evaluation.py:59-74 | Under the invariant, a route cheaper than every frontier entry ends in a settled cell. |
| PathCost.PoppedIsOptimal | evaluation.py:60-62 | An entry popped at its cell's current distance carries the cheapest cost of any route to that cell. |
| PathCost.StaleKeepsInv | evaluation.py:61-62 | Skipping an entry whose cell has since been improved keeps the invariant. |
| PathCost.PoppedFarIsShortest | evaluation.py:64-67 | A current entry popped on the far edge carries the cheapest cost of any far-edge route. |
| PathCost.SettleKeepsInv | evaluation.py:68-74 | Settling the least current entry and relaxing its neighbours keeps the invariant, with that cell added to the settled set. |
| PathCost.EmptyFrontierBlocked | evaluation.py:76 | With an empty frontier, no route reaches the far edge. |
| PathCost.DijkstraLoop | evaluation.py:59-76 | The loop returns a finite cost only if that is the cheapest far-edge route, and returns `inf` only if no route reaches the far edge. |
| PathCost.DijkstraPop | evaluation.py:60-62 | Popping (and skipping stale entries) preserves the loop's result guarantee. |
| PathCost.DijkstraSettle | evaluation.py:63-74 | Returning on the far edge or settling and continuing preserves the loop's result guarantee. |
| PathCost.ShortestPathCost | evaluation.py:25-76 | A finite result is the least number of empty cells on any route between the side's edges through cells that are not the opponent's. The result is `inf` exactly when no such route exists. |
| PathCost.ShortestFarUnique | evaluation.py:25-76 | The cheapest far-edge route costs m exactly when the function returns m. |
| PathCost.RouteCostZero | evaluation.py:28 | A route costs nothing exactly when every cell on it holds the side's stone. |
| PathCost.ChainIffFreeRoute | evaluation.py:28 | Winning chains are exactly the routes of cost zero. |
| PathCost.CostZeroIffWin | evaluation.py:25-76 | The path cost is 0 exactly when the side has won. |
| PathCost.DistinctRouteCost | evaluation.py:28-29 | A route that visits no cell twice costs the number of distinct empty cells on it. |
| PathCost.ShortenRoute | evaluation.py:28-29 | Every route can be replaced by one with the same end that visits no cell twice and costs no more. |
| PathCost.CostAtMostEmptyCells | evaluation.py:28-29 | A finite path cost never exceeds the number of empty cells on the board. |
| Scores.Max | minimax.py:105 | `max` is at least both arguments and is one of them. |
| Scores.Min | minimax.py:118 | `min` is at most both arguments and is one of them. |
| Evaluation.EvalSimple | evaluation.py:8-22 | The nested loop counts the side's stones minus the opponent's stones, as given by the row-major cell lists. The result is that difference plus noise (`SimpleScore`, which the easy player's evaluator also uses), so it lies within 0.5 of the difference. |
| Evaluation.CostDifference | evaluation.py:87 | The difference `theirs - mine` is `+inf` exactly when only the opponent is cut off, `-inf` exactly when only the side is, and the real difference when both costs are finite. |
| Evaluation.EvalShortestPath | evaluation.py:79-87 | The path evaluation is `+inf` exactly when the opponent is blocked and the side is not. It is `-inf` exactly in the reverse case, and zero when both are blocked. |
| Evaluation.EvalShortestPathFinite | evaluation.py:79-87 | When both sides can connect, the evaluation is the opponent's cheapest route cost minus the side's. |
| Evaluation.EvalShortestPathAntisymmetric | evaluation.py:79-87 | The path evaluation for RED is the negation of that for BLUE. |
| Evaluation.EvalAdvanced | evaluation.py:118-134 | The advanced evaluation is finite exactly when the path evaluation is. When infinite, it equals the path evaluation. When finite, it differs from the path evaluation by 0.3 times the difference of the connected-stone counts. |
| Evaluation.AdvancedBonusBounded | evaluation.py:128-132 | The connectivity bonus is at most 0.3 per stone of the side, and no less than -0.3 per stone of the opponent. |
| Evaluation.EvalAdvancedAntisymmetric | evaluation.py:118-134 | The advanced evaluation for RED is the negation of that for BLUE. |
| Ordering.SortByKey | minimax.py:143 | `sorted(moves, key=...)` is a permutation of its input, ascending by key, and stable: the moves sharing any one key keep their input order. |
| Ordering.OrderMovesByHeuristic | minimax.py:124-143 | The ordered moves are a permutation of the input, ascending by path cost after the move plus a tenth of the centre distance, with ties kept in input order. |
| Ordering.MoveKey | minimax.py:132-141 | A move's key is `inf` exactly when playing it leaves the side with no route, and it is never `-inf`. Otherwise it is the child's cheapest route cost plus 0.1 times the move's distance from the centre. |
| Ordering.ConnectingMovesFirst | minimax.py:124-143 | A move after which the side can still connect is ordered before any move that cuts it off. |
| Players.HeuristicOrderPermutes | minimax.py:124-143 | The heuristic ordering returns a permutation of the empty cells it is given. |
| Search.ChildPlacesMover | minimax.py:40-41 | A child board is the parent with exactly the chosen empty cell filled by the side to move. |
| Search.Terminal | minimax.py:23-33 | A node is expanded exactly when no side has won, depth remains, and some cell is empty. Otherwise its value is the win score if the side has won, else the loss score if the opponent has won, else the evaluation. |
| Search.ValuesAt | minimax.py:39-42 | Each entry of the child values is the value of the child reached by the matching move. |
| Search.Minimax | minimax.py:7-56 | The score is the game-tree value. A win for the player scores `1000 + depth` and a win for its opponent `-1000 - depth`, both with no move. Otherwise, at depth 0 or on a full board, the result is the evaluator's score with no move. At an expanded node the move is the first empty cell whose child reaches the best value, and there is no move if no child improves on the starting `-inf` / `inf`. |
| Search.MinimaxScan | minimax.py:37-56 | The loop over the children keeps the first strict improvement of the running best. It ends with the better of the starting score and the best child value. |
| Search.MinimaxMoveOptimal | minimax.py:35-56 | A returned move is an empty cell of an expanded node, and its child has exactly the returned score. |
| Search.MinimaxFindsMove | minimax.py:37-56 | At an expanded node, some move is returned whenever a child scores above `-inf` (maximising) or below `inf` (minimising). |
| Search.ImmediateWinValued | minimax.py:24-25 | A move that wins on the spot makes a maximising node worth at least the win score one level down. |
| Search.AlphaBeta | minimax.py:59-121 | Wins and losses score `±(1000 + depth)` with no move. Other terminal nodes return their game-tree value with no move. A returned move is one of the scanned (possibly reordered) empty cells. |
| Search.AlphaBetaScan | minimax.py:94-121 | The running best never worsens, and a returned move is the incoming best move or one of the scanned moves. |
| Search.NextWindow | minimax.py:105-120 | After each child the window only narrows. A maximising node raises alpha to at least the best score, and a minimising node lowers beta to at most it. |
| SearchEquivalence.PermutedBest | minimax.py:90-92 | Scanning the same moves in another order gives the same best child value. |
| SearchEquivalence.ValueOverScanOrder | minimax.py:90-92 | The game-tree value is the same over the reordered moves as over the empty cells in row-major order. |
| SearchEquivalence.AlphaBetaClamp | minimax.py:59-121 | For any window `lo < hi`, the pruned score and the game-tree value agree once clamped to `[lo, hi]`. |
| SearchEquivalence.MaxScanClamp | minimax.py:96-108 | The maximising loop, with alpha raised to the running best, agrees under clamping with the best of the running score and the remaining children's values. |
| SearchEquivalence.MinScanClamp | minimax.py:109-121 | The minimising loop, with beta lowered to the running best, agrees under clamping with the best of the running score and the remaining children's values. |
| SearchEquivalence.MaxCutoff | minimax.py:105-107 | Stopping when alpha reaches beta loses nothing under clamping: the remaining children cannot move the clamped result. |
| SearchEquivalence.MinCutoff | minimax.py:118-120 | Stopping when beta falls to alpha loses nothing under clamping. |
| SearchEquivalence.AlphaBetaEqualsMinimax | minimax.py:59-121 | With the full window `(-inf, inf)` and an ordering that permutes the moves, alpha-beta returns the minimax score. |
| SearchEquivalence.AlphaBetaWindow | minimax.py:96-121 | Fail-soft bounds: a pruned score at or above `hi` (or at or below `lo`) means the true value is too. A pruned score strictly inside the window is exact. |
| SearchEquivalence.AlphaBetaMoveOptimal | minimax.py:94-121 | The move a full-window alpha-beta search returns is an empty cell whose child has the position's game-tree value. |
| Players.EasyMove | ai_easy.py:12-19 | The easy player's move is an empty cell whose child achieves the depth-1 value under the noisy stone-count evaluation. |
| Players.MediumMove | ai_medium.py:12-19 | The medium player's move is an empty cell whose child achieves the depth-2 value under the path evaluation. |
| Players.HardMove | ai_hard.py:12-24 | The hard player's pruned, heuristically ordered depth-3 search returns an empty cell whose child achieves the depth-3 value under the advanced evaluation. |
| Players.HardScoreIsMinimax | ai_hard.py:17-24 | The hard player's pruned search scores the position exactly as plain depth-3 minimax does. |

## Left out

- The game loop, menus, human input and board printing (main.py, player.py, `HexBoard.display`, the name and symbol tables) are not modelled. They are I/O around the core.
- `random.uniform(-0.5, 0.5)` in `eval_simple` is not modelled as a random draw. The noise is a parameter bounded by ±0.5.
- Players.EasyMove: the noise is modelled as a fixed function of the position and side. The source draws fresh noise at every leaf, so two evaluations of the same position may differ there.
- Evaluation.CostDifference: when both sides are cut off, Python's `inf - inf` is NaN. The model uses 0 instead. On a real Hex board both sides cannot be blocked at once, but that fact (the Hex theorem) is not proved here.
- Evaluation.EvalAdvanced: it inherits that NaN replacement.
- Floating-point rounding is not modelled. Scores are exact reals plus `±inf`, so `0.3`, `0.1` and `size / 2.0` are exact.
- `heapq` is modelled as a multiset of `(d, row, col)` entries from which the least is taken in tuple order. This is the order `heappop` yields. The heap's array layout is not modelled.
- The seeding test `cost < dist[...]` in `_shortest_path_cost` is not written out as a branch. Each start-edge cell is seen once with its distance still `inf`, so the test always passes.
- Utils.ParseMove: CPython's `int()` raises `ValueError` for a digit string longer than 4300 characters (its default limit on integer string conversion). The program does not catch that error. The model reads digit strings of any length and returns the move or `None`.
- HexBoard.NewBoard: takes the size explicitly. The Python constructor defaults it to 11 (board.py:13); the players and search work for any size.
- Utils.ColLabel: requires `ord('A') + col` below 0xD800, because a Dafny `char` cannot hold surrogate code points. Python's `chr` accepts larger values.
- Text handling covers ASCII only. Python's `strip`, `upper`, `isalpha` and `isdigit` are Unicode-aware, for example accepting non-ASCII digits or upper-casing `ß`.
- Game-level facts are not proved: that Hex has no draws, and that exactly one side wins a full board.
- SearchEquivalence.AlphaBetaEqualsMinimax: requires the ordering function to permute the empty cells. That requirement is proved for the heuristic ordering (`Players.HeuristicOrderPermutes`); it is not established for orderings in general.
