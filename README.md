# Kanoodle solver: a Dafny model

This project models the puzzle solver of the Kanoodle backend, in three parts.

- **The Dancing Links solver** (`DLX`). It is an exact cover solver in Knuth's Algorithm X style:
  - a ring of column headers, each with a vertical ring of cells and a count;
  - a recursive search that picks the first column of least count and tries each of its rows;
  - elimination and reinstatement of columns that mutate the rings, the counts and the per-cell `detached` flags in place.
- **The Kanoodle encoder and renderer**. It covers:
  - the pieces and their eight orientations;
  - the bit-packed tile set;
  - the signature used to drop duplicate orientations;
  - `createSearchRows`, which turns pins and free pieces into placements;
  - the column mapping `isColumnOccupied` over `W * H + P` columns;
  - `formatGrid`, `findSolution` and `findAllSolutions`.
- **The piece table**: the twelve pieces of the 11 x 5 puzzle.

The solver keeps the imperative form of the source. `DancingLinks.DLX` is a class whose pointer fields are arena sequences (`up`, `down`, `left`, `right`, `count`, `detached`). Each method's body follows the source statement by statement. Each method is proved against a value-level specification:

- `ExactCover`: the matrix, the active columns, the column choice and the search tree (`Leaves`);
- `Rings`: ring link operations;
- `DlxState`: elimination and reinstatement as functions on a snapshot `Mat` of the fields.

The key facts proved:

- every solution returned covers every column exactly once;
- reinstating the columns of a row in the **same** order they were eliminated restores every link, count and flag, even though the order is not Knuth's reversed one;
- when there is at least one column, `solve` returns the first solution `solveAll` lists. With no columns, `solve` returns the empty solution and `solveAll` returns none.

On the Kanoodle side, the main results are that each list returned is a tiling and that the text shows it:

- `Kanoodle.AllSolutionsTile` and `Kanoodle.SolutionFits` prove that each list `findAllSolutions` returns, and the solution findSolution renders, is a tiling: every grid cell is covered by exactly one placement's tile, and every piece is used exactly once.
- `Kanoodle.TilingText` proves that, with one-character symbols (`SingleChars`), the rendered text shows each cell as the symbol of the piece covering it. A longer symbol lengthens its line, as `join('')` does.

The files are:

- DLX solver: `rings.dfy`, `exactcover.dfy`, `dlxstate.dfy`, `dlxproofs.dfy`, `dlxcover.dfy`, `dlxuncover.dfy`, `dlxwalk.dfy`, `dlxbuild.dfy`, `dlxsteps.dfy`, `dlxsearch.dfy`, `dlxresults.dfy`, `dlx.dfy`;
- Kanoodle: `geometry.dfy` (Piece), `placements.dfy` (SearchRow), `searchrows.dfy`, `render.dfy`, `kanoodle.dfy`;
- piece table: `pieces.dfy`;
- shared: `options.dfy`.

dlx.js is the compiled JavaScript twin of src/algorithm/dlx.class.ts. Its methods are statement for statement the same: constructor 8-11, solve 12-15, solveAll 16-21, createRows 22-43, createHeaders 44-57, search 59-86, isColumnListEmpty 87-89, selectColumn 90-103, eliminateColumn 104-112, reinstateColumn 113-121, eliminateRow 122-138 and reinstateRow 139-148. The one difference is that its search pushes `x.row.info` itself rather than a `toObject` copy. So the `DancingLinks.DLX` members below model both files, and the table cites the TypeScript lines.

Two points where the code does something a reader might not expect:

- **Signature set.** The set of seen orientation signatures is one set, shared by the pins and all the pieces (src/algorithm/kanoodle.class.ts:64). It is not one set per piece. So a free piece whose orientation has the same signature as an earlier pin or piece loses that orientation.
- **Oversized pieces.** Pieces larger than 8 x 8 are not rejected anywhere. The model therefore states that bound as a hypothesis (`Geometry.TilesInBox`) and proves it holds for the shipped table.

## Model

| member | source | states |
|---|---|---|
| DancingLinks.DLX.CreateHeaders | src/algorithm/dlx.class.ts:49-62 | The header ring holds the column list and the `n` headers in index order (an ideal ring over nodes 0..n). Every column's root cell links to itself, and every count is 0 with no cell detached. |
| DancingLinks.DLX.CreateRows | src/algorithm/dlx.class.ts:26-47 | Falsy infos are dropped. The cells of each remaining info are appended at the tail of their columns' rings in row order. The result is exactly the layout `Layout(n, infos, occ)`, with ideal vertical rings, no detached cell, and each count equal to the number of kept infos occupying that column. |
| DancingLinks.DLX.AddCell | src/algorithm/dlx.class.ts:33-42 | One occupied column: the new cell is linked in above the column root, the count grows by one, and the layout built so far grows by that cell. |
| DancingLinks.DLX.constructor | src/algorithm/dlx.class.ts:9-12 | The solver's matrix is `Problem(rowInfo, n, occ)`, the counts equal the occupying-info counts, the state is valid with every column active, and the partial solution and the solutions list are empty. |
| DancingLinks.DLX.DetachCell | src/algorithm/dlx.class.ts:136-143 | One live cell is unlinked from its column. When the count is already 0 the result is the error outcome (the source throws); otherwise the count drops by one and the cell is marked detached. |
| DancingLinks.DLX.EliminateRow | src/algorithm/dlx.class.ts:132-147 | Exactly the not-yet-detached cells of the row outside `skipColumn` are detached, in row order. The outcome is an error when a count would go below zero. |
| DancingLinks.DLX.EliminateRowCell | src/algorithm/dlx.class.ts:133-146 | One iteration of eliminateRow's loop advances the row run by one cell, or reports the throw. |
| DancingLinks.DLX.AttachCell | src/algorithm/dlx.class.ts:151-156 | One detached cell is relinked, its count grows by one, and its flag is cleared. |
| DancingLinks.DLX.ReinstateRow | src/algorithm/dlx.class.ts:149-158 | Exactly the detached cells of the row are re-attached, in row order. |
| DancingLinks.DLX.ReinstateRowCell | src/algorithm/dlx.class.ts:150-157 | One iteration of reinstateRow's loop advances the restore run by one cell. |
| DancingLinks.DLX.UnlinkHeader | src/algorithm/dlx.class.ts:118-119 | Only the header ring changes: the header is unlinked. |
| DancingLinks.DLX.RelinkHeader | src/algorithm/dlx.class.ts:128-129 | Only the header ring changes: the header is relinked between its old neighbours. |
| DancingLinks.DLX.EliminateColumn | src/algorithm/dlx.class.ts:112-120 | The new state is `ElimCol`: each row met walking down the column is eliminated (skipping this column), then the header leaves the ring. The outcome is an error where the source throws. |
| DancingLinks.DLX.ReinstateColumn | src/algorithm/dlx.class.ts:122-130 | The new state is `ReinstCol`: each row met walking down the column is reinstated, then the header is relinked. |
| DancingLinks.DLX.IsColumnListEmpty | src/algorithm/dlx.class.ts:93-95 | The column list is its own right neighbour exactly when no column is active. |
| DancingLinks.DLX.SelectColumn | src/algorithm/dlx.class.ts:97-110 | Returns -1 (null) exactly when no column is active; otherwise returns `SelectUpTo`, the first active column of least count. |
| DancingLinks.DLX.CoverRow | src/algorithm/dlx.class.ts:73-75 | Eliminating the columns of the chosen row's cells, in order, gives the state `Cover(m, RowCols(r))`. |
| DancingLinks.DLX.UncoverRow | src/algorithm/dlx.class.ts:84-86 | Reinstating the same columns in the same order restores the exact state before the cover: links, counts and flags. |
| DancingLinks.DLX.Choose | src/algorithm/dlx.class.ts:72-75 | The row's info is pushed onto the partial solution and its columns are covered. The state stays valid for the extended choice. |
| DancingLinks.DLX.Backtrack | src/algorithm/dlx.class.ts:84-87 | The row's columns are uncovered, which restores the state before `Choose`, and the partial solution is popped. |
| DancingLinks.DLX.Search | src/algorithm/dlx.class.ts:65-91 | With no active column, returns the partial solution. In collect mode, appends every solution of the search subtree in order and restores the state and the partial solution. In first mode, returns the first solution of the subtree or None, and on None restores everything. |
| DancingLinks.DLX.Branch | src/algorithm/dlx.class.ts:71-89 | One turn of the search loop on one row: the solutions below that row are collected, or the first of them is returned, with state and partial solution restored whenever the search goes on. |
| DancingLinks.DLX.Solve | src/algorithm/dlx.class.ts:14-17 | Returns `FirstSolution(rowInfo, n, occ)`. |
| DancingLinks.DLX.SolveAll | src/algorithm/dlx.class.ts:19-24 | Returns `AllSolutions(rowInfo, n, occ)`, one list per complete leaf of the search tree, in search order. |
| ExactCover.SelectSpec | src/algorithm/dlx.class.ts:97-110 | The selected column is -1 exactly when no column is active. Otherwise it is active, its count is at most every active column's count, and every earlier active column has a strictly larger count. |
| ExactCover.CompleteIsExactCover | src/algorithm/dlx.class.ts:66-68 | A choice of non-empty rows that leaves no active column is an exact cover: no row is chosen twice, the rows are pairwise column-disjoint, and they cover every column. |
| ExactCover.LeavesNonEmpty | src/algorithm/dlx.class.ts:69-72 | Every leaf reached from a choice of non-empty rows chooses only non-empty rows, since each row is met as a cell of the selected column. |
| ExactCover.LeavesAreExactCovers | src/algorithm/dlx.class.ts:65-91 | Every leaf the search reaches is an exact cover, with no row chosen twice. |
| Rings.RelinkInSameOrderRestores | src/algorithm/dlx.class.ts:112-130 | Unlinking a list of ring nodes and relinking the same list in the same order restores the ring, for nodes that are unlinkable in that order. |
| Rings.UnlinkIdeal | src/algorithm/dlx.class.ts:118-119 | Unlinking a node from an ideal ring leaves an ideal ring over the other nodes. |
| DlxState.DeleteEffect | src/algorithm/dlx.class.ts:132-147 | Deleting a list of cells unlinks exactly those cells from the vertical rings. It leaves the header ring unchanged and leaves every other cell's flag as it was. |
| DlxState.RestoreEffect | src/algorithm/dlx.class.ts:149-158 | Restoring a list of cells relinks exactly those cells. It leaves the header ring unchanged and leaves every other cell's flag as it was. |
| DlxProofs.ElimColValid | src/algorithm/dlx.class.ts:112-120 | Eliminating an active column never throws from a valid state; it gives a valid state with that column covered. The vertical rings lose exactly the cells below it, and the header ring loses exactly its header. |
| DlxCover.CoverValid | src/algorithm/dlx.class.ts:73-75 | Covering fresh columns in turn succeeds and keeps the state valid. |
| DlxUncover.UncoverRestores | src/algorithm/dlx.class.ts:72-87 | Covering fresh columns and then uncovering them in the same order gives back the original state. |
| DlxBuild.TruthyMember | src/algorithm/dlx.class.ts:27 | An info survives the filter exactly when it was present. |
| DlxBuild.LayoutRowCols | src/algorithm/dlx.class.ts:29-46 | Row `r` of the layout has one cell per occupied column of info `r`, in increasing column order. |
| DlxBuild.HeaderRingIdeal | src/algorithm/dlx.class.ts:49-62 | The header ring of `n` columns is an ideal ring over nodes 0..n in index order. |
| DlxBuild.TallyOccupied | src/algorithm/dlx.class.ts:31-32 | A row's cell list contains column `c` once if the info occupies it and `c < n`, and otherwise not at all. |
| DlxSearch.LeafFound | src/algorithm/dlx.class.ts:66-68 | At a complete choice the search tree is that one leaf, and the solution recorded is the infos of its rows. |
| DlxResults.NoColumns | src/algorithm/dlx.class.ts:14-24 | With no columns, solve returns the empty solution and solveAll returns no solutions. |
| DlxResults.EmptyComplete | src/algorithm/dlx.class.ts:66-67 | The empty choice is complete exactly when there are no columns. |
| DlxResults.SolveIsFirst | src/algorithm/dlx.class.ts:14-24 | With at least one column, solve returns None when solveAll finds nothing, and otherwise the first list solveAll finds. |
| DlxResults.ExactCoverIsCover | src/algorithm/dlx.class.ts:26-47 | An exact cover of the layout picks pairwise distinct rows whose infos' occupied columns are pairwise disjoint and together cover every column below `n`. |
| DlxResults.AllSolutionsCover | src/algorithm/dlx.class.ts:19-24 | Every list solveAll returns is the infos of rows forming an exact cover of the columns. |
| DlxResults.FirstSolutionCovers | src/algorithm/dlx.class.ts:14-17 | The list solve returns, when there is one, is the infos of rows forming an exact cover. |
| Geometry.BuildBitfield | src/algorithm/kanoodle.class.ts:140-146 | The bitfield is the set of bits `row * 8 + col` of the tiles; a negative shift sets no bit. |
| Geometry.NewPiece | src/algorithm/kanoodle.class.ts:129-138 | The Piece constructor gives `MakePiece`: index, symbol, grid size, dimensions and the bitfield of the tiles. |
| Geometry.BitsOfTiles | src/algorithm/kanoodle.class.ts:140-146 | With tiles inside a box of at most 8 x 8, bit `r * 8 + c` is set exactly when (c, r) is a tile. |
| Geometry.WidthHeightTurn | src/algorithm/kanoodle.class.ts:148-162 | With no rotation or R0 the width and height are the stored dimensions; a quarter turn swaps width and height; a half turn keeps them. |
| Geometry.LocalBijection | src/algorithm/kanoodle.class.ts:164-193 | For each of the eight orientations, the map to canonical coordinates is a bijection from the rotated box onto the canonical box, with `Unmap` its inverse. |
| Geometry.TileInRotatedBox | src/algorithm/kanoodle.class.ts:194-199 | isTileAt is false outside the rotated box. |
| Geometry.TileAtUnrotated | src/algorithm/kanoodle.class.ts:164-172 | At R0 unflipped, with tiles inside the box, isTileAt holds exactly at the listed tiles. |
| Geometry.OrientedTileCount | src/algorithm/kanoodle.class.ts:164-200 | Every orientation shows as many tiles as the canonical piece. |
| Geometry.GetSignature | src/algorithm/kanoodle.class.ts:202-212 | The signature is the set of `r * 8 + c` over the 8 x 8 cells where isTileAt holds. |
| Geometry.SignatureBits | src/algorithm/kanoodle.class.ts:202-212 | Every signature bit is below 64, and bit `r * 8 + c` (for c, r < 8) is set exactly when isTileAt(c, r). |
| Geometry.SameSignatureSameTiles | src/algorithm/kanoodle.class.ts:202-212 | For orientations whose boxes fit in 8 x 8, equal signatures mean the same tiles at every cell. |
| Placements.PieceColumn | src/algorithm/kanoodle.class.ts:233-238 | At or past `W * H`, a placement occupies exactly the column `W * H + piece index`. |
| Placements.CellColumnOccupied | src/algorithm/kanoodle.class.ts:233-238 | The column of grid cell (x, y), `y * W + x`, is occupied exactly when the placement has a tile on that cell. |
| Placements.BoxInGridFits | src/algorithm/kanoodle.class.ts:230-232 | A placement whose rotated box lies in the grid puts every tile on a grid cell. |
| SearchRows.FindPiece | src/algorithm/kanoodle.class.ts:68 | `find` on symbol returns None exactly when no piece has the symbol, and otherwise the first piece that has it. |
| SearchRows.Unpinned | src/algorithm/kanoodle.class.ts:80 | The pieces kept are exactly those no pin names. |
| SearchRows.AddPositions | src/algorithm/kanoodle.class.ts:92-99 | The position loops append `Positions`: first every column of row 0, then row 1, and so on. |
| SearchRows.AddOrientation | src/algorithm/kanoodle.class.ts:86-100 | One orientation: when its signature is new, it is recorded and all its positions are appended; otherwise nothing changes. |
| SearchRows.AddPin | src/algorithm/kanoodle.class.ts:66-78 | One pin: when the symbol names a piece and the orientation's signature is new, the pin's placement is appended and its signature recorded; otherwise nothing changes. |
| SearchRows.AddPiece | src/algorithm/kanoodle.class.ts:82-103 | One free piece: the eight orientations in the order R0, R90, R180, R270, each unflipped then flipped. |
| SearchRows.CreateSearchRows | src/algorithm/kanoodle.class.ts:61-106 | The rows are `SearchRowsOf`: pins first, then the free pieces, with one signature set shared throughout. |
| SearchRows.OrientationRowCount | src/algorithm/kanoodle.class.ts:92-99 | A kept orientation contributes `(W - w + 1) * (H - h + 1)` rows when both factors are positive, and none otherwise. |
| SearchRows.PositionsAt | src/algorithm/kanoodle.class.ts:92-99 | The positions are in row-major order: position (c, r) is at index `r * (maxCol + 1) + c`. |
| SearchRows.PositionsInGrid | src/algorithm/kanoodle.class.ts:92-99 | Every position has the piece and orientation given and lies within the allowed column and row bounds. |
| SearchRows.PinsFoldRows | src/algorithm/kanoodle.class.ts:64-78 | The pin rows are placements of pins in input order, with pairwise distinct signatures, all recorded in the seen set. |
| SearchRows.SearchRowsShape | src/algorithm/kanoodle.class.ts:61-106 | Pin rows come first. Every later row places a piece no pin names, with its box inside the grid. Two rows with the same signature have the same piece and orientation, and both come from a free piece: no signature yields rows twice across the output. |
| SearchRows.RowsFit | src/algorithm/kanoodle.class.ts:61-106 | When every pin row the pin loop keeps fits the grid, every row does: the free pieces' rows always fit. |
| SearchRows.RowsFromPieces | src/algorithm/kanoodle.class.ts:61-106 | Every row places one of the given pieces. |
| Rendering.Paint | src/algorithm/kanoodle.class.ts:9-20 | Painting one placement makes every grid cell equal to the cell value after that placement: its symbol where it has a tile, the old value elsewhere. |
| Rendering.FormatGrid | src/algorithm/kanoodle.class.ts:6-29 | The text is `Render(solution, W, H)`. |
| Rendering.Join | src/algorithm/kanoodle.class.ts:22-28 | Joining the painted grid gives a newline, then each row joined and followed by a newline. |
| Rendering.Uncovered | src/algorithm/kanoodle.class.ts:7 | A cell no placement covers stays a blank. |
| Rendering.LastCoverWins | src/algorithm/kanoodle.class.ts:9-20 | A covered cell shows the symbol of the last placement covering it. |
| Rendering.RenderLength | src/algorithm/kanoodle.class.ts:22-28 | With one-character symbols (`SingleChars`), the text has `1 + H * (W + 1)` characters and starts with a newline. |
| Rendering.RenderAt | src/algorithm/kanoodle.class.ts:22-28 | With one-character symbols (`SingleChars`), cell (x, y) is the character at `Offset(W, x, y) = 1 + y * (W + 1) + x`, and a newline ends each line. |
| Kanoodle.CreatePieces | src/algorithm/kanoodle.class.ts:53-59 | Piece `i` is made from description `i` with index `i` and the grid size. |
| Kanoodle.EveryPinFits | src/algorithm/kanoodle.class.ts:66-78 | When every pin whose symbol names a piece lies inside the grid, every kept pin row does (`PinsFit`). |
| Kanoodle.FindSolution | src/algorithm/kanoodle.class.ts:31-44 | The result is "No solution found" when the solver, given the search rows and `W * H + P` columns, finds nothing. Otherwise it is the rendering of the first solution. |
| Kanoodle.FindAllSolutions | src/algorithm/kanoodle.class.ts:46-51 | The result is every solution of the search rows over `W * H + P` columns. |
| Kanoodle.CoverTiles | src/algorithm/kanoodle.class.ts:233-238 | Placements forming an exact cover of the `W * H + P` columns tile the grid: each cell has exactly one tile, and each piece is placed exactly once. |
| Kanoodle.AllSolutionsTile | src/algorithm/kanoodle.class.ts:46-51 | Every list findAllSolutions returns is such a tiling. |
| Kanoodle.SolutionFits | src/algorithm/kanoodle.class.ts:37-41 | The solution findSolution renders is such a tiling of the given pieces. It fits the grid when the kept pin rows do, so every cell formatGrid paints exists. |
| Kanoodle.TilingText | src/algorithm/kanoodle.class.ts:6-29 | With one-character symbols (`SingleChars`), the text of a tiling has `1 + H * (W + 1)` characters, a newline first and at each line end, and the symbol of the one covering piece at each cell. |
| Kanoodle.SolutionText | src/algorithm/kanoodle.class.ts:37-41 | With one-character symbols, the solution findSolution renders is a tiling with one-character symbols, so the text layout of `TilingText` applies. |
| PieceTable.TableWellFormed | src/algorithm/pieces.const.ts:3-76 | Every entry has a one-character symbol, tiles inside its box, a box of at most 8 x 8, and no tile listed twice. |
| PieceTable.DistinctBits | src/algorithm/kanoodle.class.ts:140-146 | Tiles inside a box of at most 8 x 8, none listed twice, get distinct bits below 64. |
| PieceTable.TableBits | src/algorithm/pieces.const.ts:6-72 | For each table entry, buildBitfield sets one distinct bit below 64 per tile. |
| PieceTable.TableSymbols | src/algorithm/pieces.const.ts:5-71 | There are 12 entries with symbols "A" to "L", pairwise distinct. |
| PieceTable.PinResolves | src/algorithm/kanoodle.class.ts:68 | A pin naming the symbol of entry `k` resolves to piece `k`. |
| PieceTable.TableArea | src/services/kanoodle.service.ts:8-9 | The table's tiles number 55, the cell count of the 11 x 5 grid. |

## Left out

- **Logging.** The `console.log` calls in findSolution (src/algorithm/kanoodle.class.ts:32-38) do output only.
- **Web layers.** The controller, the server and the service (`KanoodleService` only fixes the 11 x 5 grid and wraps `{count, solutions}`) are not part of this model.
- **`toObject`.** src/utils/convertBigInt.ts is a JSON round trip that makes BigInt values printable. The model pushes the placement value itself, as dlx.js does. The TypeScript copies, which lose the Piece methods, are not modelled, so neither is the way they would make findSolution's formatGrid call fail at run time.
- **The `Rotation` enum.** `kanoodle.enum` is not part of this model. The `for … in` over its keys with the `isNaN` filter (src/algorithm/kanoodle.class.ts:83-84) is modelled as the four rotations R0, R90, R180, R270 in that order. What that line iterates depends on how kanoodle.enum declares `Rotation`, which this model does not cover. If `Rotation` is a numeric enum, `rotation` is a key string such as "ROTATION_90". Then no `case` of isTileAt's switch matches (src/algorithm/kanoodle.class.ts:166), and getWidth and getHeight (:148-162) take their swapped branch. All eight orientations would then have the unrotated signature, so each free piece would keep one orientation, placed on a box with width and height swapped. The model does not capture that case.
- **BigInt.** The bit-packed tile set and the signature are modelled as sets of bit indices.
- **Unused fields.** `DLX.count` (src/algorithm/dlx.class.ts:64) and a Piece's `color` and `tiles` after construction play no part in the logic. They are carried as data only.
- **Object identity.** The cells and headers are integer nodes of an arena, not objects. Header `c` is node `c + 1` of the header ring, and the column list is node 0. `column`, `row`, `cells` and `info` never change after construction, so they are `const` fields. CreateHeaders and CreateRows return the arenas the constructor stores, rather than writing fields one by one.
- **Falsy row infos** are modelled as `None` in a `seq<Option<T>>`. findSolution and findAllSolutions pass only present placements (`Kanoodle.Present`).
- **Kanoodle.FindSolution**: requires `PinsFit`, that every pin row createSearchRows keeps lies inside the grid. Pins it drops (unknown symbol, or a signature already seen) need not fit (src/algorithm/kanoodle.class.ts:66-78). The source never checks pin coordinates. A kept pin that sticks out above or below the grid makes formatGrid index a missing grid row and throw a TypeError (src/algorithm/kanoodle.class.ts:16). One that sticks out left or right writes past either end of an existing row array, which JavaScript allows. `join('')` (src/algorithm/kanoodle.class.ts:24) then either lengthens that line or silently drops the symbol. The model covers neither. findAllSolutions needs no such condition.
- **Rendering.FormatGrid** and **Rendering.Paint**: require every placement to fit the grid (`Fits`), for the same reason. findSolution meets that requirement through `Kanoodle.SolutionFits`.
- **Geometry.TilesInBox** (tiles inside a box of at most 8 x 8) is a hypothesis of the lemmas that need it. The Piece constructor does not validate it. The shipped table satisfies it (`PieceTable.TableWellFormed`).
- **Completeness.** The model does not prove that findAllSolutions lists *every* tiling, only that every list it returns is one.
