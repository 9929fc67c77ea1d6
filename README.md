# 1024: a verified model of the sliding-tile engine

This project models the game logic of a 1024 (2048-style) sliding-tile game
written in Java (`NumberGame` and `Cell`) and proves properties of it.

The model covers:

- the board, a rows-by-columns array of tile values where 0 means empty;
- the winning value;
- the undo stack of earlier boards;
- configuration (`resizeBoard`, the power-of-two test);
- copying and listing (`setValues`, `copyBoard`, `getNonEmptyTiles`);
- the four-direction slide, including merging and the random tile placed
  after a move;
- `undo`;
- the end-of-game tests (`hasWon`, `hasMoveLeft`, `getStatus`);
- `reset`;
- the `Cell` value type with its equality and ordering.

Files and modules:

- `board.dfy` (module `Board`): board values as `seq<seq<int>>`. It holds cell
  update, sums and counts of tiles, and the bitwise power-of-two test with a
  proof that it accepts exactly the numbers 2^k.
- `cells.dfy` (module `Cells`): the `Cell` record with `equals` and
  `compareTo`.
- `sliding.dfy` (module `Sliding`): what one slide does, as a function of
  the board before the slide.
  - A tile scans toward the wall over the current board, passing empty
    cells. It merges into the first occupied cell when that cell holds the
    same value; otherwise it stops just short of it.
  - The tiles are visited in the order of two nested loops, with each loop
    running forward or backward depending on the direction.
  - Proved: the slide changes the board exactly when some tile has an empty
    or equal first neighbour toward the wall.
  - Proved: if nothing changes, the board is untouched.
  - Proved: the slide keeps the total, and the sum of every row (for left
    and right) or of every column (for up and down).
  - Proved: the slide never adds a tile, and it leaves an empty cell
    whenever it changed something.
- `game.dfy` (module `Game`): the `NumberGame` class.
  - The board is an `array2?<int>` (null until the first resize), mirrored
    by a ghost value `grid`.
  - Each method is proved against the functions of `Sliding` and `Board`.
  - Also proved: a move is left exactly when a cell is empty or two
    neighbouring cells hold the same value.
- `examples.dfy` (module `Examples`): boards worked through, among them the
  cascading merge `[2,2,4,4]` → `[8,4,0,0]`.

Behaviour modelled as the code has it, not as the game is usually described:

- **The merge guard never blocks.** The "recently merged" flag is set on a
  freshly built, discarded `Cell`, so the guard that reads it is always
  passed. Merges therefore cascade within one slide.
- **Tile values come from before the slide.** The value a tile carries is
  the one it had before the slide began (the list is built first). Its
  neighbours are read from the board as it stands at that moment.
- **Every slide pushes a snapshot**, whether or not anything moves.
- **The move test leaks snapshots.** It probes by sliding and undoes only
  the probes that succeeded, so each failed probe leaves a copy of the board
  on the undo stack. `getStatus` runs that test twice.
- **Resizing does not clear the undo stack.** The same goes for `reset`.

Sorting replaced by loop order. `slide` sorts its tile list with one
comparator per direction and then walks it. Two tiles never share a
position, so that order is the order of two nested loops: rows outside and
columns inside, each forward or backward by direction. The lemma
`Sliding.LoopOrderIsSortOrder` proves that every comparator ranks tiles in
that loop order.

Random choices are nondeterministic (`:|`). This covers the empty cell
chosen for a new tile and the draw of 0 or 1 that makes it a 2 or a 4. Every
contract therefore holds for every choice.

## Model

| member | source | states |
|---|---|---|
| Board.IsPowerOf2 | 1024/src/game1024/NumberGame.java:603-608 | the game's test: `n > 0` and the bitwise and of `n` and `n - 1` is 0, the and computed bit by bit on non-negative numbers |
| Board.IsPowerOf2Exactly | 1024/src/game1024/NumberGame.java:603-608 | the test `n > 0 && (n & (n-1)) == 0` holds exactly when n >= 1 and n is 2 to the power of its base-2 logarithm |
| Board.Pow2IsPowerOf2 | 1024/src/game1024/NumberGame.java:603-608 | every power 2^k passes the test, and its logarithm is k |
| Cells.Equals | 1024/src/game1024/Cell.java:24-31 | `equals`: two cells are equal when row, column and value agree; the merge flag is not compared |
| Cells.CompareTo | 1024/src/game1024/Cell.java:34-43 | `compareTo`: -1 or 1 by row, then -1 or 1 by column, then the difference of the values |
| Cells.DefaultCell | 1024/src/game1024/Cell.java:9-12 | the no-argument constructor gives row 0, column 0, value 0, flag false |
| Cells.EqualsIgnoresFlag | 1024/src/game1024/Cell.java:24-31 | two cells are equal exactly when they agree on everything except the merge flag |
| Cells.EqualsIsEquivalence | 1024/src/game1024/Cell.java:24-31 | equality is reflexive, symmetric and transitive |
| Cells.CompareToZeroIffEquals | 1024/src/game1024/Cell.java:24-43 | `compareTo` is 0 exactly when `equals` holds |
| Cells.CompareToAntisymmetric | 1024/src/game1024/Cell.java:34-43 | swapping the arguments flips the sign of `compareTo` |
| Cells.CompareToIsLexicographic | 1024/src/game1024/Cell.java:34-43 | `compareTo` is negative (positive) exactly when the first cell is lexicographically smaller (greater) by row, column, value |
| Cells.CompareToTransitive | 1024/src/game1024/Cell.java:34-43 | the ordering is transitive |
| Sliding.SlidePhase | 1024/src/game1024/NumberGame.java:165-439 | the board and the `slideOccured` flag once the tile loop of a slide has visited every tile of the board as it was before the slide |
| Sliding.Pass | 1024/src/game1024/NumberGame.java:174-243 | the board and the flag once the nested loops have visited every position before (a, b), rows outer and columns inner, each forward or backward by direction; the board keeps its shape |
| Sliding.Visit | 1024/src/game1024/NumberGame.java:197-243 | one iteration of the tile loop: a cell empty before the slide is not in the list and is skipped; otherwise its pre-slide value is moved and the flag is set if it travelled; the board keeps its shape |
| Sliding.Move | 1024/src/game1024/NumberGame.java:204-242 | the tile's origin is cleared, then the value its scan yields is written at the landing cell; the board keeps its shape |
| Sliding.Scan | 1024/src/game1024/NumberGame.java:204-238 | a tile passes only empty cells; it merges onto the first occupied cell exactly when that cell holds its value, doubling it; otherwise it keeps its value and rests on an empty cell just short of the wall or of a different tile |
| Sliding.ScanMovesIffMovable | 1024/src/game1024/NumberGame.java:204-236 | a tile moves at all exactly when its first neighbour toward the wall is empty or holds the same value |
| Sliding.LandingGain | 1024/src/game1024/NumberGame.java:219-242 | the landing cell, reached by steps toward the wall, is on the board; it gains exactly the tile's value; it was occupied exactly when the tile merged; a tile that does not move lands on its origin |
| Sliding.MoveFrame | 1024/src/game1024/NumberGame.java:240-242 | moving one tile changes no cell other than its origin and its landing cell |
| Sliding.MoveSum | 1024/src/game1024/NumberGame.java:240-242 | moving one tile keeps the total of all values |
| Sliding.MoveCount | 1024/src/game1024/NumberGame.java:240-242 | moving one tile removes one occupied cell when it merges, otherwise none |
| Sliding.MoveLineSums | 1024/src/game1024/NumberGame.java:204-242 | a vertical move keeps every column sum and a horizontal move every row sum |
| Sliding.PassPending | 1024/src/game1024/NumberGame.java:197-243 | cells the loops have not reached still hold their values from before the slide |
| Sliding.PassConserves | 1024/src/game1024/NumberGame.java:197-243 | at every point of the loops, the total and every line sum in the slide's direction are those of the board before the slide, and no cell has become occupied |
| Sliding.PassTracked | 1024/src/game1024/NumberGame.java:197-243 | at every point of the loops, while the change flag is clear the board is untouched, and once it is set fewer cells are occupied than the board has |
| Sliding.PassChanged | 1024/src/game1024/NumberGame.java:197-243 | at every point of the loops, the change flag is set exactly when some tile already visited could move on the board before the slide |
| Sliding.VisitTracked | 1024/src/game1024/NumberGame.java:197-243 | visiting a tile that has not moved yet sets the change flag exactly when the flag was set or that tile could move on the board before the slide |
| Sliding.SlideChangedIffCanMove | 1024/src/game1024/NumberGame.java:165-439 | a slide reports a change exactly when some tile has an empty or equal first neighbour toward the wall |
| Sliding.SlideUnchanged | 1024/src/game1024/NumberGame.java:441-447 | a slide that reports no change leaves every cell as it was |
| Sliding.SlideConserves | 1024/src/game1024/NumberGame.java:174-439 | the slide phase keeps the total, each row sum (left/right) or column sum (up/down), and never adds an occupied cell |
| Sliding.SlideLeavesRoom | 1024/src/game1024/NumberGame.java:441-444 | after a slide that changed the board there is an empty cell for the new tile |
| Sliding.SlideComparator | 1024/src/game1024/NumberGame.java:177-396 | the four anonymous comparators: rows ascending for up and right, descending for down and left; columns ascending for up and left, descending for down and right; ties broken by the difference of the values |
| Sliding.UpComparatorIsCompareTo | 1024/src/game1024/NumberGame.java:177-194 | the comparator used when sliding up is `Cell.compareTo` |
| Sliding.LoopOrderIsSortOrder | 1024/src/game1024/NumberGame.java:174-398 | in each direction, for a tile the nested loops reach earlier and one they reach later, whatever the values, the comparator ranks the earlier one below the later one and the later one above the earlier one, so walking the sorted list visits tiles in loop order |
| Game.GenerateValue | 1024/src/game1024/NumberGame.java:98-102 | the new tile is 2 (draw 0) or 4 (draw 1), a power of two |
| Game.FullBoardVertical | 1024/src/game1024/NumberGame.java:507-514 | on a full board, sliding up or down changes something exactly when two vertically adjacent cells are equal |
| Game.FullBoardHorizontal | 1024/src/game1024/NumberGame.java:515-522 | on a full board, sliding left or right changes something exactly when two horizontally adjacent cells are equal |
| Game.MoveLeftIff | 1024/src/game1024/NumberGame.java:497-529 | a move is left (an empty cell or a slide that changes the board) exactly when a cell is empty or two neighbours are equal |
| Game.StatusOfIff | 1024/src/game1024/NumberGame.java:559-576 | won exactly when the winning value is on the board; lost exactly when it is not and the board is full without equal neighbours; otherwise in progress |
| Game.NumberGame.constructor | 1024/src/game1024/NumberGame.java:19-26 | no board yet, winning value 1024, empty undo stack |
| Game.NumberGame.ResizeBoard | 1024/src/game1024/NumberGame.java:60-68 | throws IllegalArgument exactly when the winning value is not 2^k, changing nothing; otherwise a fresh all-zero height-by-width board and the new winning value; the undo stack is kept either way |
| Game.NumberGame.SetValues | 1024/src/game1024/NumberGame.java:80-91 | the top-left `|ref|` by `|ref[0]|` corner of the board takes the values of `ref`; every other cell keeps its value |
| Game.NumberGame.PlaceRandomValue | 1024/src/game1024/NumberGame.java:113-136 | a 2 or a 4 is written into a cell that was empty and nothing else changes; the returned cell names that position and value with the flag cleared |
| Game.NumberGame.ClearTiles | 1024/src/game1024/NumberGame.java:36-41 | writing 0 at every listed position, when every occupied cell is listed, leaves an all-zero board |
| Game.NumberGame.Reset | 1024/src/game1024/NumberGame.java:33-46 | afterwards exactly two cells are occupied and every cell holds 0, 2 or 4 |
| Game.NumberGame.GetNonEmptyTiles | 1024/src/game1024/NumberGame.java:474-489 | the list holds exactly the non-empty cells, each with its position and value and the flag cleared, strictly increasing under `compareTo` (row-major order) |
| Game.NumberGame.CopyBoard | 1024/src/game1024/NumberGame.java:456-467 | the copy has the board's shape and every cell's value |
| Game.NumberGame.ScanFrom | 1024/src/game1024/NumberGame.java:204-238 | the scan loop, which reads neighbours by plain indexing, finds the landing that `Sliding.Scan` describes |
| Game.NumberGame.MoveTile | 1024/src/game1024/NumberGame.java:197-243 | clearing the origin and then writing the landing value performs one visit of the slide specification |
| Game.NumberGame.MoveTiles | 1024/src/game1024/NumberGame.java:174-439 | the tile loops leave exactly the board and change flag of the slide specification |
| Game.NumberGame.Slide | 1024/src/game1024/NumberGame.java:165-448 | one snapshot equal to the old board is pushed; the result is true exactly when the slide specification changes the board; if false the board is untouched; if true the board is the slid board plus one new 2 or 4 in an empty cell |
| Game.NumberGame.Undo | 1024/src/game1024/NumberGame.java:588-594 | with an empty stack throws IllegalState and changes nothing; otherwise pops the most recent snapshot and makes it the board |
| Game.NumberGame.HasWon | 1024/src/game1024/NumberGame.java:538-552 | true exactly when some cell holds the winning value |
| Game.NumberGame.Probe | 1024/src/game1024/NumberGame.java:507-522 | a probing slide reports whether the slide would change the board; if so it is undone, and if not its snapshot stays on the stack |
| Game.NumberGame.ProbeAll | 1024/src/game1024/NumberGame.java:507-522 | probing up, down, left and right in turn reports a move exactly when some slide changes the board; the board values are unchanged and the stack only grows, by copies of the board |
| Game.NumberGame.HasMoveLeft | 1024/src/game1024/NumberGame.java:497-529 | true exactly when a cell is empty or some slide changes the board; the board values are unchanged; the stack only grows, by copies of the board |
| Game.NumberGame.GetStatus | 1024/src/game1024/NumberGame.java:559-576 | the status is `StatusOf` the board (won beats lost); the board values are unchanged and the stack only grows by copies of the board |
| Game.SlideThenUndo | 1024/src/game1024/NumberGame.java:578-594 | a slide followed by an undo restores the board and the undo stack exactly |
| Examples.CascadingMerge | 1024/src/game1024/NumberGame.java:377-439 | `[2,2,4,4]` slid left becomes `[8,4,0,0]` and reports a change |
| Examples.BlockedLine | 1024/src/game1024/NumberGame.java:406-432 | `[2,4,2,0]` slid left is unchanged and reports no change |
| Examples.SimpleMerge | 1024/src/game1024/NumberGame.java:377-439 | `[2,2,0,0]` slid left becomes `[4,0,0,0]` |
| Examples.PowersOfTwo | 1024/src/game1024/NumberGame.java:603-608 | 1 and 1024 pass the power-of-two test; 0, -8 and 6 fail it |

## Left out

- Randomness: `java.util.Random` is replaced by a nondeterministic choice of the empty cell and of the draw, so the contracts hold for every outcome; the distribution is not modelled.
- Game.NumberGame.PlaceRandomValue: requires an empty cell. On a full board with at least one cell the source's retry loop never ends, although its documentation promises an IllegalStateException; that loop and its termination are not modelled. On a board with no rows the source throws an index exception, and on one with rows but no columns `nextInt(0)` throws IllegalArgumentException; neither is modelled.
- Game.NumberGame.Reset: requires a board with at least two cells, for the same reason (the second placement would never end on a one-cell board).
- Game.NumberGame.SetValues: requires `ref` to fit inside the board, with every row at least as long as the first. The source does no dimension check and throws an index exception midway, after a partial copy; that path is not modelled.
- Game.NumberGame.Slide, Game.NumberGame.HasMoveLeft, Game.NumberGame.HasWon, Game.NumberGame.GetStatus, Game.NumberGame.GetNonEmptyTiles, Game.NumberGame.Reset, Game.NumberGame.CopyBoard: require a board with at least one row. The source reads `gameBoard[0]` (`board[0]` in `copyBoard`) and throws an index exception on a zero-row board, and a null-pointer exception before the first resize.
- Game.NumberGame.ResizeBoard: takes natural dimensions; a negative Java dimension throws NegativeArraySizeException, which is not modelled.
- Game.NumberGame.Undo: installs a fresh array holding the popped snapshot's values. The source makes the popped array object itself the board; no other reference to it exists, so only object identity differs.
- Game.NumberGame.HasMoveLeft: the exact number of snapshots failed probes leave on the stack is not stated, only that every added entry is a copy of the board. The `board` parameter of `hasMoveLeft` and `hasWon` is dropped: it only supplies the loop bounds, both read the cells of the game's own board, and every caller passes `gameBoard` itself, so its dimensions are those of `gameBoard`.
- 32-bit overflow: tile values, the doubling on a merge and the `value - other.value` tie-breaker of `compareTo` and of the comparators use unbounded integers.
- The writes of the `recentlyMerged` flag during a slide go to discarded objects and have no effect; they are not modelled (the guard that reads the flag is always passed, as modelled).
- `FlipBoard` is never called and is not part of this model.
- `Cell.toString` is string formatting only.
- The `NumberSlider` interface is not part of this model; the `SlideDirection` and `GameStatus` enums appear only as the datatypes `Direction` and `GameStatus`.
- `returnCellIfExists` is modelled as reading the board cell and testing it for zero, inside `ScanFrom`; the tile list it rebuilds on each call is not.
