# 2048 board engine in Dafny

This project models the board engine of a small raylib 2048 game written in C
(`main.c`). The game keeps a global 4×4 matrix `tiles`. Every arrow key runs
the same left-merge routine on a suitably reframed board. For LEFT that is
`Merge` directly. For RIGHT it is `Flip; Merge; Flip`. For UP it is
`Transpose; Merge; Transpose`. For DOWN it is
`Transpose; Flip; Merge; Flip; Transpose`. `Merge` itself is `Compress`, a
left-to-right pass that doubles the left cell of each equal adjacent pair and
clears its partner, and `Compress` again. A move is only made when
`MoveIsAvailable` says a tile can slide or merge. After a move,
`AddTwoOrFour` puts a 2 (or, for a draw of 90 or more, a 4) on an empty cell.
The score shown by `Render` is the sum of all tile values.

The project has four modules:

- `RowReduce` (`row_reduce.dfy`) works on one row as a value: Compress, the
  merge pass and Merge. It also defines a reference semantics `Collapse` on the
  tiles of a row, in order: when the first two tiles are equal they become
  one tile of double value and both leave the scan; otherwise the first tile
  is kept and the scan moves on. Merge is proved equal to Collapse followed
  by empty cells.
- `Grids` (`grid.dfy`) works on the board as a value. It defines Flip,
  Transpose, the row-wise Compress and Merge, the score (`Score`, the
  row-major sum that `Render` computes), the multiset of values (`Tiles`) and
  the emptiness test (`HasEmpty`).
- `Moves` (`moves.dfy`) defines the four moves, exactly as `Input` composes
  them, and the legality test exactly as `MoveIsAvailable` scans it. It also
  defines the spawn of `AddTwoOrFour` and a whole turn.
- `Game` (`board.dfy`) holds the class `Board`, whose `array2<int>` field
  `tiles` is the global matrix. Its methods read or update the array in place
  with the source's loops: InitTiles, EmptyTiles, the Render score,
  MoveIsAvailable, Flip, Transpose, Compress, Merge, AddTwoOrFour (without its
  random retry, see "## Left out") and Input. Each method is
  proved against the value-level function that specifies it, through the
  ghost view `Cells()`.

The merge test in the source is `tiles[i][j].num == tiles[i][j + 1].num != 0`.
C parses this as `(a == b) != 0`, which is plain equality. It is not
`a == b && a != 0`, and it is not `a == (b != 0)`. The model follows the code
as C parses it, so two empty cells "merge" into an empty cell.
`RowReduce.ZeroPairsAreHarmless` proves that this gives the same pass as the
stricter "non-zero and equal" test.

The random choices of `AddTwoOrFour` are supplied as parameters. The source
draws a cell, and if the cell is occupied the function calls itself until it
finds an empty one; this is modelled by a supplied cell that must be empty
whenever the board has an empty cell. The draw of `GetRandomValue(1, 100)` is
also a parameter.

## Model

| member | source | states |
|---|---|---|
| `RowReduce.Slides` | main.c:280 | the neighbour test of MoveIsAvailable: a non-empty tile can enter a neighbour cell that is empty or holds an equal value |
| `RowReduce.CanSlideLeft` | main.c:278-281 | the "L" scan on one row: some non-empty cell other than the first has an equal or empty left neighbour |
| `RowReduce.CompressRow` | main.c:243-254 | the row Compress leaves: its tiles in their original order, then empty cells up to the original length |
| `RowReduce.CompressRowSpec` | main.c:241-255 | Compress keeps the row length, keeps the tiles in their original order and leaves no empty cell before an occupied one |
| `RowReduce.CompressRowUnique` | main.c:241-255 | those properties determine the compressed row uniquely |
| `RowReduce.CompressRowIdempotent` | main.c:238-257 | compressing twice is the same as compressing once |
| `RowReduce.CompressRowSum` | main.c:241-255 | Compress keeps the sum of the row |
| `RowReduce.CompressRowTileValues` | main.c:241-255 | Compress keeps every tile a power of two |
| `RowReduce.MergePass` | main.c:262-269 | the row the doubling loop leaves: scanning left to right, a cell equal to its right neighbour is doubled, the neighbour becomes empty and the scan moves on to it |
| `RowReduce.ZeroPairsAreHarmless` | main.c:264 | the pass with the test as C parses it (plain equality) equals the pass with "non-zero and equal" |
| `RowReduce.MergePassStepEqual` | main.c:264-269 | one loop iteration on an equal pair (double the left cell, clear the right one) advances the merge pass by one cell |
| `RowReduce.MergePassStepUnequal` | main.c:263-264 | one loop iteration on an unequal pair changes nothing and advances the pass by one cell |
| `RowReduce.MergePassSum` | main.c:262-269 | the merge pass keeps the sum of the row (a + a becomes 2a + 0) |
| `RowReduce.MergePassTileValues` | main.c:262-269 | doubling keeps every tile a power of two |
| `RowReduce.MergePassOnPacked` | main.c:262-269 | on a compressed row, the tiles left by the pass are exactly Collapse of the tiles |
| `RowReduce.MergeRow` | main.c:259-271 | Merge on one row: Compress, the doubling pass, Compress; the result has the row's length |
| `RowReduce.MergeRowIsCollapse` | main.c:259-271 | Merge equals the reference semantics: Collapse of the tiles, then empty cells, so no cell merges twice |
| `RowReduce.MergeRowNonZeros` | main.c:259-271 | the tiles after Merge, left to right, are Collapse of the tiles before it |
| `RowReduce.MergeRowSum` | main.c:259-271 | Merge keeps the sum of the row |
| `RowReduce.MergeRowTileValues` | main.c:259-271 | if every tile is a power of two before Merge, so is every tile after it |
| `RowReduce.MergeRowCount` | main.c:259-271 | each merge removes exactly one tile: tiles after plus merges equals tiles before |
| `RowReduce.MergeStepCount` | main.c:264-267 | one merging iteration of the loop (an occupied cell equal to its right neighbour) removes exactly one tile from the row |
| `RowReduce.MergeRowWithoutMerges` | main.c:259-271 | a Merge in which no two tiles meet equal only slides: the tiles keep their values and order, and the row is its compressed form |
| `RowReduce.MergeRowUnchangedIff` | main.c:259-282 | Merge leaves a row unchanged if and only if the left test of MoveIsAvailable finds no tile that can move on it |
| `RowReduce.MergeRowMakesRoom` | main.c:259-271 | a Merge that changes a row leaves an empty cell in it |
| `RowReduce.MergeRowFourEqual` | main.c:259-271 | [4,4,4,4] becomes [8,8,0,0], not [16,0,0,0] |
| `RowReduce.MergeRowThreeEqual` | main.c:259-271 | [2,2,2,4] becomes [4,2,4,0]: the pair nearest the wall merges |
| `RowReduce.MergeRowAcrossGaps` | main.c:259-271 | [0,2,0,2] becomes [4,0,0,0]: tiles separated by empty cells merge |
| `RowReduce.PermutationSum` | main.c:111-117 | rows holding the same multiset of values have the same sum |
| `Grids.Flip` | main.c:215-224 | every row reversed: cell [i][j] moves to [i][n-1-j] |
| `Grids.Transpose` | main.c:227-236 | rows and columns exchanged: cell [i][j] becomes cell [j][i] |
| `Grids.HasEmpty` | main.c:168-175 | some cell of the board is empty |
| `Grids.Score` | main.c:111-117 | the sum of all cells, added up in row-major order |
| `Grids.CompressGrid` | main.c:238-257 | Compress on the whole board: every row compressed, the board keeps its shape |
| `Grids.MergePassGrid` | main.c:262-269 | the doubling loop over every row of the board, each row keeping its length |
| `Grids.MergeLeft` | main.c:259-271 | Merge applied to every row of the board; the board keeps its shape |
| `Grids.FlipInvolution` | main.c:215-224 | flipping twice gives back the board |
| `Grids.FlipTiles` | main.c:215-224 | Flip only moves cells: the multiset of values is unchanged |
| `Grids.FlipScore` | main.c:215-224 | Flip keeps the score |
| `Grids.FlipHasEmpty` | main.c:215-224 | Flip keeps whether the board has an empty cell |
| `Grids.TransposeInvolution` | main.c:227-236 | transposing twice gives back the board |
| `Grids.TransposeTiles` | main.c:227-236 | Transpose only moves cells: the multiset of values is unchanged |
| `Grids.TransposeScore` | main.c:227-236 | Transpose keeps the score |
| `Grids.TransposeHasEmpty` | main.c:227-236 | Transpose keeps whether the board has an empty cell |
| `Grids.SameTilesSameScore` | main.c:111-117 | boards holding the same values, wherever they are, have the same score |
| `Grids.MergeLeftScore` | main.c:259-271 | Merge on the whole board keeps the score |
| `Grids.MergeLeftTileValues` | main.c:259-271 | Merge on the whole board keeps every tile a power of two |
| `Grids.MergeLeftMakesRoom` | main.c:259-271 | a Merge that changes the board leaves an empty cell on it |
| `Moves.SlidesDownAt` | main.c:294 | the "D" neighbour test: the tile at [i][j] is non-empty and the cell below it is empty or equal |
| `Moves.SlidesUpAt` | main.c:301 | the "U" neighbour test: the tile at [i][j] is non-empty and the cell above it is empty or equal |
| `Moves.Frame` | main.c:381-399 | the reframing Input applies before Merge: none for LEFT, Flip for RIGHT, Transpose for UP, Transpose then Flip for DOWN; the board stays square |
| `Moves.Unframe` | main.c:385-401 | the reframing Input applies after Merge: none for LEFT, Flip for RIGHT, Transpose for UP, Flip then Transpose for DOWN; the board stays square |
| `Moves.CanMove` | main.c:274-305 | MoveIsAvailable: some non-empty tile whose neighbour in the direction of the key is empty or equal to it |
| `Moves.Move` | main.c:376-403 | the board after each key's sequence of Flip, Transpose and Merge; the board stays square |
| `Moves.FrameRoundTrip` | main.c:381-403 | the reframing after Merge undoes the reframing before it, in both orders |
| `Moves.RightCheckIsFlippedLeft` | main.c:283-289 | the "R" test holds on a board if and only if the "L" test holds on the flipped board |
| `Moves.DownCheckIsReframedLeft` | main.c:290-296 | the "D" test holds on a board if and only if the "L" test holds on the board transposed, then flipped |
| `Moves.UpCheckIsTransposedLeft` | main.c:297-303 | the "U" test holds on a board if and only if the "L" test holds on the transposed board |
| `Moves.CheckIsFramedLeft` | main.c:274-305 | every direction's test is the "L" test on the board reframed as Input reframes it for that key |
| `Moves.LeftUnchangedIff` | main.c:376-379 | the LEFT move leaves the board unchanged if and only if MoveIsAvailable("L") is false |
| `Moves.MoveUnchangedIff` | main.c:374-404 | every move leaves the board unchanged if and only if MoveIsAvailable is false for that direction |
| `Moves.MoveScore` | main.c:374-404 | no move changes the score |
| `Moves.MoveTileValues` | main.c:374-404 | every move keeps every tile a power of two |
| `Moves.MoveMakesRoom` | main.c:374-404 | a move that changes the board leaves an empty cell for AddTwoOrFour |
| `Moves.SpawnAllowed` | main.c:201-210 | the cell the retry finally accepts: whenever the board has an empty cell, the supplied cell is on the board and empty |
| `Moves.SpawnValue` | main.c:205 | the spawned value: 4 for a draw of 90 or more, 2 otherwise |
| `Moves.Spawn` | main.c:197-212 | on a full board nothing changes; otherwise only the picked empty cell changes, to 4 if and only if the draw is at least 90 and to 2 otherwise |
| `Moves.SpawnScore` | main.c:197-212 | AddTwoOrFour raises the score by the spawned value, or by 0 on a full board |
| `Moves.Turn` | main.c:374-404 | one key press: the move and then a spawn when MoveIsAvailable allows it, the board unchanged otherwise |
| `Moves.TurnScore` | main.c:374-404 | a legal key press raises the score by exactly the spawned value; an illegal one leaves it as it is |
| `Moves.TurnChangesIff` | main.c:374-404 | a key press changes the board if and only if MoveIsAvailable allows the move |
| `Moves.TurnTileValues` | main.c:374-404 | after any key press every tile is still a power of two |
| `Game.Board.constructor` | main.c:79-92 | InitTiles leaves every cell of the new matrix empty |
| `Game.Board.EmptyTiles` | main.c:168-175 | the scan returns true if and only if some cell is empty |
| `Game.Board.TotalScore` | main.c:111-117 | the row-major running sum in Render equals the score of the board |
| `Game.Board.MoveIsAvailable` | main.c:274-305 | the result equals the legality test of the requested direction |
| `Game.Board.CanMoveLeft` | main.c:276-282 | the "L" scan returns true if and only if some non-empty tile has an equal or empty left neighbour |
| `Game.Board.CanMoveRight` | main.c:283-289 | the "R" scan returns true if and only if some non-empty tile has an equal or empty right neighbour |
| `Game.Board.CanMoveDown` | main.c:290-296 | the "D" scan returns true if and only if some non-empty tile has an equal or empty cell below it |
| `Game.Board.CanMoveUp` | main.c:297-303 | the "U" scan returns true if and only if some non-empty tile has an equal or empty cell above it |
| `Game.Board.Flip` | main.c:215-224 | the in-place swap loop leaves the mirrored board |
| `Game.Board.Transpose` | main.c:227-236 | the in-place swap loop below the diagonal leaves the transposed board |
| `Game.Board.CompressRowAt` | main.c:241-255 | the write cursor `zeros` loop leaves the compressed row and touches no other row |
| `Game.Board.Compress` | main.c:238-257 | every row of the matrix is replaced by its compressed row |
| `Game.Board.MergePassAt` | main.c:262-269 | the doubling loop over one row leaves the merge pass of that row and touches no other row |
| `Game.Board.Merge` | main.c:259-271 | the matrix becomes the left Merge of the old matrix |
| `Game.Board.AddTwoOrFour` | main.c:197-212 | the matrix becomes the spawn of the old matrix at the supplied cell and draw |
| `Game.Board.Slide` | main.c:376-403 | each key's sequence of Flip, Transpose and Merge leaves the moved board |
| `Game.Board.Input` | main.c:374-404 | reports whether the move was legal; the matrix becomes the turn of the old matrix: the move and a spawn if legal, else unchanged |

## Left out

- Rendering, colours and text (`Render` apart from its score sum, `GetTileColor`, the raylib window) are drawing code.
- The animations are drawing code. This covers `MergeAnimation`, `MoveAnimation`, `Animate`, `MergingTiles` and `MovingTiles`. It also covers the `merging`, `moving`, `pos` and `size` fields of `Tile` and the writes to them in `Merge` and `AddTwoOrFour`. Only `num` is modelled.
- `PrintMatrix` is debug output to the terminal.
- The main loop and `IsKeyPressed` are left out, because the keyboard is I/O. `Input` models one pressed key per call. The source tests all four keys in one frame, so several keys pressed in the same frame give several moves; a caller of the model calls `Input` once per key.
- `Game.Board.AddTwoOrFour` does not model `GetRandomValue` and the self-call that retries until an empty cell is drawn. The random cell that is finally accepted is a supplied parameter, required to be empty when the board has an empty cell. The draw is also a parameter. The model does not capture the distribution of the random choices.
- `Game.Board.MoveIsAvailable` takes an enumeration instead of the string `"L"`/`"R"`/`"D"`/`"U"`. The source compares the string pointers with `==`, which relies on the compiler pooling identical string literals.
- `Game.Board.Merge` does not model 32-bit `int` overflow of `num *= 2`. Tile values are unbounded integers, and a real game never gets near 2^31.
- The initial two spawns in `main` are not stated separately; they are two calls of `AddTwoOrFour` on the board from the constructor.
