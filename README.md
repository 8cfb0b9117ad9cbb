# Hex grid engine: coordinates, reachability, path search and map construction

This project models the hex-grid core of `core/src/hex/engine/Map.kt` in Dafny and proves
properties of the model.

- **Coordinates** (`Coords`). Cells use odd-q offset coordinates `OddQ(col, row)`. There are two
  six-entry direction tables, and `col and 1` picks one of them. Cube coordinates `Cube(x, y, z)`
  come from `toCube` and go back through `Cube.toOddQ`. The heuristic is the Manhattan distance of
  the offset coordinates.
- **Reachability** (`Walks`, `Movement`). `possibleMovement` floods outwards ring by ring. It keeps
  a `visited` set and a list of fringes. A cell is passable exactly when it is a key of `terrain`.
  The result is described by `Ball(start, terrain, n)`, the cells a flood fill reaches in `n` rings.
  Walks of neighbour steps give a second, independent description.
- **Path search** (`SearchTree`, `PathSearch`). `path` is a best-first search:
  - It keeps a priority queue, a `costSoFar` table and `cameFrom` back pointers.
  - Afterwards it walks the back pointers from the target.
  - The queue is a multiset of `(priority, cell)` entries. `poll` returns any entry of least
    priority. That covers every tie-break the Java `PriorityQueue` could make.
  - A ghost history map records the distinct cells behind each cost. It bounds every cost, which
    is what makes the loop terminate.
- **Map construction** (`Level`). The `LevelMap` init block:
  - merges the gid→tile maps of the tile sets;
  - walks the row-major "terrain" layer, giving each index a cell and a pixel anchor;
  - builds a `Hex` for every gid that has a tile;
  - maps every pixel the hex covers back to that hex.
- **Kotlin arithmetic** (`KotlinInt`). Kotlin's `/` and `%` truncate toward zero, so they are
  written out as `Quot` and `Rem`. `col and 1` is Dafny's `col % 2`, for negative columns too.
- **Cells** (`Cells`). `Hex.cost` is the constant 1 (`Cells.Hex.cost`, Map.kt:184). The search
  relies on it: a relabelled cell costs one more than the cell it was reached from.

The code differs from two claims one might read into it. The model follows the code.

- **Parity test of the anchor.** At Map.kt:67 the variable `odd` is true for *even* columns.
  Line 68 uses it negated, so the half-tile shift goes to odd columns. That matches the neighbour
  tables, which treat odd columns as half a row lower. `Level.AnchorsFollowNeighbors` proves that
  with an even tile height, every direction moves the anchor by the same offset from every cell.
  The lemma needs the even height because `tileHeight / 2` drops the remainder.
- **Unreachable target.** When `to` is unreachable, is not a terrain cell, or is the start, `path`
  returns the one-cell list `[to]`. That is what `PathSearch.Path` returns too. It is not an empty
  or absent result.

## Model

| member | source | states |
|---|---|---|
| KotlinInt.Quot | core/src/hex/engine/Map.kt:66-68 | Kotlin's `/`: the magnitude is the Euclidean quotient of the magnitudes, and the sign follows the operands' signs |
| KotlinInt.Rem | core/src/hex/engine/Map.kt:66 | Kotlin's `%`: `a == b * Quot(a, b) + r`, `r` is smaller in magnitude than `b`, and `r` has the sign of `a` |
| KotlinInt.AgreesWithEuclidean | core/src/hex/engine/Map.kt:66 | for a non-negative dividend and a positive divisor, Kotlin's and Dafny's operators agree |
| Coords.Parity | core/src/hex/engine/Map.kt:93 | `col and 1` is 0 or 1, and `col` minus it is even, negative columns included |
| Coords.Opposite | core/src/hex/engine/Map.kt:86-89 | the opposite direction's cube step cancels the direction's cube step |
| Coords.NeighborCube | core/src/hex/engine/Map.kt:86-96 | in cube coordinates, `neighbor(d)` adds the same fixed vector for both column parities |
| Coords.NeighborBack | core/src/hex/engine/Map.kt:92-96 | adjacency is symmetric: `p.neighbor(d).neighbor(Opposite(d)) == p` |
| Coords.NeighborsDistinct | core/src/hex/engine/Map.kt:92-96 | the six neighbours of a cell differ from it and from each other |
| Coords.AdjacentSymmetric | core/src/hex/engine/Map.kt:92-96 | if `q` is a neighbour of `p`, then `p` is a neighbour of `q` |
| Coords.ToCube | core/src/hex/engine/Map.kt:163-169 | `toCube` lands on the plane `x + y + z == 0`, and `toOddQ` of it gives back the cell, for every integer column and row |
| Coords.ToOddQ | core/src/hex/engine/Map.kt:174-178 | `toOddQ` keeps the column |
| Coords.CubeRoundTrip | core/src/hex/engine/Map.kt:172-178 | for a cube on the plane, `toOddQ` then `toCube` gives it back |
| Coords.ToCubeInjective | core/src/hex/engine/Map.kt:163-169 | different cells have different cubes |
| Coords.Heuristic | core/src/hex/engine/Map.kt:159-161 | the heuristic is a non-negative integer that is zero exactly when the cells are equal |
| Coords.HeuristicSymmetric | core/src/hex/engine/Map.kt:159-161 | the heuristic is symmetric |
| Coords.HeuristicOverestimates | core/src/hex/engine/Map.kt:159-161 | one neighbour step, of cost 1, has heuristic 2, so the heuristic is not admissible |
| Walks.Step | core/src/hex/engine/Map.kt:108-116 | one ring of neighbour steps only reaches terrain cells |
| Walks.Ball | core/src/hex/engine/Map.kt:99-119 | the cells within `n` rings include the start, and every other one is a terrain cell |
| Walks.StepAddCell | core/src/hex/engine/Map.kt:107-118 | expanding one more fringe cell adds exactly its terrain neighbours |
| Walks.BallMonotone | core/src/hex/engine/Map.kt:105-119 | more rings reach a superset of cells |
| Walks.BallGrows | core/src/hex/engine/Map.kt:108-115 | a terrain neighbour of a cell within `n - 1` rings is within `n` rings |
| Walks.WalkExtend | core/src/hex/engine/Map.kt:108-115 | appending a terrain neighbour of the last cell extends a walk |
| Walks.BallHasWalk | core/src/hex/engine/Map.kt:105-119 | soundness: every cell within `n` rings ends a walk of at most `n` steps through terrain cells |
| Walks.WalkInBall | core/src/hex/engine/Map.kt:105-119 | completeness: the end of every such walk is within `n` rings |
| Walks.BallIsWalks | core/src/hex/engine/Map.kt:105-119 | within `n` rings if and only if reachable by a walk of at most `n` steps |
| Walks.ClosedHoldsConnected | core/src/hex/engine/Map.kt:131-146 | a set that holds the start and every terrain neighbour of its members holds every cell connected to the start |
| Movement.PossibleMovement | core/src/hex/engine/Map.kt:98-121 | the result is the set of cells within `range` rings; for `range <= 0` it is `{start}`; a cell is in it exactly when a walk of at most `range` steps through terrain cells reaches it |
| Movement.ExpandRing | core/src/hex/engine/Map.kt:105-118 | one turn of the `k` loop: `visited` becomes the cells within `k` rings, and the new fringe holds the cells ring `k` added |
| Movement.ExpandCells | core/src/hex/engine/Map.kt:107-118 | the loop over the previous fringe adds its cells' terrain neighbours to `visited`, and lists exactly the new ones in the fringe |
| Movement.ExpandCell | core/src/hex/engine/Map.kt:108-117 | the direction loop of one cell adds its unvisited terrain neighbours to `visited` and to the fringe |
| Movement.RingNext | core/src/hex/engine/Map.kt:105-118 | expanding only the newest fringe of ring `k - 1` yields all of ring `k` |
| Movement.RingComplete | core/src/hex/engine/Map.kt:105-118 | cells found before the last fringe were already expanded, so they add nothing new |
| SearchTree.MinExists | core/src/hex/engine/Map.kt:131-132 | a non-empty queue has an entry of least priority for `poll` to return |
| SearchTree.TreeSound | core/src/hex/engine/Map.kt:127-145 | a labelled cost is at least the number of steps: cell `n` is within `costSoFar[n]` rings of the start |
| SearchTree.OfferKeeps | core/src/hex/engine/Map.kt:137-143 | relabelling through `current` keeps the back-pointer forest and the cost bound, and uses up one available label |
| SearchTree.TreeAfterOffer | core/src/hex/engine/Map.kt:138-142 | the start keeps cost 0, and every back pointer leads to a labelled neighbour of smaller cost |
| SearchTree.HistoryAfterOffer | core/src/hex/engine/Map.kt:138-140 | the cells behind `current`'s cost, with the neighbour appended, are pairwise distinct |
| SearchTree.BoundedAfterOffer | core/src/hex/engine/Map.kt:140 | each cost keeps one distinct cell per unit, so every cost stays below the number of cells |
| SearchTree.RankAfterOffer | core/src/hex/engine/Map.kt:137-140 | lowering a label through `current` strictly shrinks the set of labels still available, so the search loop terminates |
| SearchTree.DistinctBounded | core/src/hex/engine/Map.kt:140 | a list of distinct cells is no longer than the set they are drawn from |
| SearchTree.AvailShrinks | core/src/hex/engine/Map.kt:139-140 | lowering a label strictly decreases the number of labels still available: the loop's measure |
| SearchTree.GrownAfterOffer | core/src/hex/engine/Map.kt:140-141 | every newly labelled cell is queued, and the queue only grows |
| SearchTree.ClosedBelowNext | core/src/hex/engine/Map.kt:134-145 | after direction `k` is tried, the terrain neighbours in directions up to `k` are labelled |
| SearchTree.InitKeeps | core/src/hex/engine/Map.kt:124-129 | the initial queue and tables satisfy the loop invariants |
| SearchTree.SearchDone | core/src/hex/engine/Map.kt:131-146 | when the loop ends, costs bound the distance, and unless `to` was reached every connected cell is labelled |
| SearchTree.CoveredAfterExpand | core/src/hex/engine/Map.kt:131-145 | every labelled cell is still queued or has all its terrain neighbours labelled |
| SearchTree.ChainPrepend | core/src/hex/engine/Map.kt:152-155 | prepending the back pointer of the first cell keeps costs strictly increasing and steps adjacent |
| SearchTree.PathEnds | core/src/hex/engine/Map.kt:149-156 | where the walk back stops: at the start, or at once when `to` is the start or was never labelled |
| PathSearch.Search | core/src/hex/engine/Map.kt:124-146 | the back pointers form a forest rooted at the start; every cost is at least the distance; unless `to` was polled, every cell connected to the start is labelled |
| PathSearch.Expand | core/src/hex/engine/Map.kt:134-145 | after the direction loop the invariants hold, the queue only grew, and every terrain neighbour of the polled cell is labelled |
| PathSearch.Relax | core/src/hex/engine/Map.kt:135-143 | one direction keeps the invariants and leaves that neighbour labelled if it is a terrain cell |
| PathSearch.Path | core/src/hex/engine/Map.kt:123-157 | the result is non-empty and ends at `to`; it has more than one cell exactly when `to` is another cell connected to the start, and then it starts at the start and is a walk of terrain neighbours without repeated cells; otherwise it is `[to]` |
| Level.CellAt | core/src/hex/engine/Map.kt:66 | index `idx` maps to a cell in the first `Abs(width)` columns whose row-major index is `idx` |
| Level.CellAtInjective | core/src/hex/engine/Map.kt:65-66 | different data indices give different cells |
| Level.CellAtIndex | core/src/hex/engine/Map.kt:66 | every cell in the first `Abs(width)` columns with a non-negative index is the cell of that index |
| Level.DivUnique | core/src/hex/engine/Map.kt:66 | a quotient and a remainder within range are unique |
| Level.EvenTest | core/src/hex/engine/Map.kt:67 | Kotlin's `col % 2 == 0` is the evenness test for negative columns too |
| Level.NeighborHalfRows | core/src/hex/engine/Map.kt:86-96 | each direction moves a cell by a fixed number of columns and of half rows |
| Level.AnchorY | core/src/hex/engine/Map.kt:67-68 | with an even tile height, the anchor's height is proportional to the cell's height in half rows |
| Level.AnchorsFollowNeighbors | core/src/hex/engine/Map.kt:67-68 | with an even tile height, each direction moves the anchor by one fixed offset from every cell |
| Level.LastTileSet | core/src/hex/engine/Map.kt:59-61 | the last tile set that defines a gid, or none when none does |
| Level.MergedIsLast | core/src/hex/engine/Map.kt:57-61 | a gid has a tile exactly when some tile set defines it, and the tile comes from the last tile set that does |
| Level.MergeTileSets | core/src/hex/engine/Map.kt:57-61 | the `putAll` loop gives the merged gid map |
| Level.Overlay | core/src/hex/engine/Map.kt:75-77 | every pixel of the hex maps to it, and every other pixel keeps its hex |
| Level.Paint | core/src/hex/engine/Map.kt:75-77 | the pixel loop gives that overlay |
| Level.LastOwner | core/src/hex/engine/Map.kt:70-78 | the last index whose hex covers a pixel, or none when no hex does |
| Level.AnchorsAreCells | core/src/hex/engine/Map.kt:65-69 | `oddQToPixF` has exactly the layer's cells as keys, empty gids included, and each maps to its anchor |
| Level.TerrainIsHexes | core/src/hex/engine/Map.kt:65-73 | `terrain` has exactly the cells whose gid has a tile; `terrain[k].oddQ == k`, and its anchor and tile are those of `k` |
| Level.PaintedIsLastOwner | core/src/hex/engine/Map.kt:70-78 | a pixel is mapped exactly when some hex covers it, and then to the hex of the last index that does |
| Level.PaintedInTerrain | core/src/hex/engine/Map.kt:70-78 | every hex in `worldToHex` is the hex `terrain` stores for its cell |
| Level.LevelMap.constructor | core/src/hex/engine/Map.kt:46-81 | the sizes and layers are kept; without a "terrain" layer all three tables are empty, and otherwise they are the tables described above |
| Level.LevelMap.LoadTerrain | core/src/hex/engine/Map.kt:63-80 | the loop over the layer gives the anchor, terrain and pixel tables of its indices |

## Left out

- `Hex.myPixels` (Map.kt:186-211) computes the pixel mask with `Float` division and `toInt()`
  truncation. The mask enters the model as the parameter `pixelsOf`, a function of the anchor.
  The three sizes it also reads are fixed for a map.
- `Hex.pixels` (Map.kt:182) is the copy of the mask that `myPixels` stores as a side effect. It is
  not modelled.
- `MapReader` and `TileSetReader` parse JSON and load textures. That is file I/O through libGDX.
  The constructor takes the tile sets already read, as a list of gid→tile maps in list order.
  The `TileSetRef` list itself is not kept.
- `core/src/hex/engine/map/Map.kt` is not part of this model. Its `LevelMap` is an empty stub, and
  the rest is I/O. `Engine.kt`, `HexPreview.kt`, `Texture.kt` and the desktop launcher are not
  part of it either: they are screens, input, camera, actors and bootstrap code.
- `TileType` keeps only its name. Its `properties` are a constructor argument the source does not
  store. Textures are opaque handles.
- `PixF` holds integers. Line 68 casts integer expressions to `Float`, and nothing in the core
  computes with the floats.
- 32-bit `Int` overflow is not modelled; every integer is unbounded. This covers costs,
  priorities, data indices, anchors and `Math.abs`.
- Path optimality: the heuristic overestimates (`Coords.HeuristicOverestimates`), and the code
  promises no shortest path. No model member claims one.
- Level.LevelMap.constructor: a non-empty "terrain" layer of width 0 makes Kotlin throw on
  `idx % 0`. The model does not model the exception; its precondition excludes that layer.
- Level.LevelMap.LoadTerrain: it requires the three tables to be empty, as they are in the init
  block, rather than describing loads into tables that already hold entries.
- `Layer.height` is carried but unused, as in the init block.
- Level.AnchorsFollowNeighbors: it assumes an even tile height. The case of an odd height, where
  `tileHeight / 2` drops a remainder, is not covered.
