# Minesweeper rule engine in Dafny

This project models the rule engine `Minesweeper` of the Java Minesweeper
game (`cz.educanet.minesweeper.logic`). The engine keeps a `columns` by
`rows` grid of cells. Each cell holds a bomb flag and a field state:
0 hidden, 1 visible, 2 flag and 3 question mark. It also keeps three
fields:

- `blockAmount`, the counter of safe cells still to reveal;
- `isBomb`, the game-over flag;
- the constant flag and bomb counters.

The model follows the engine's code, not its doc comments. It consists of
three modules.

- `Field` (`field.dfy`):
  - the cell record `Grid`;
  - board coordinates;
  - value views of a whole board, seen as a map from coordinates to cells: its bombs, its unrevealed cells, and the number of unrevealed safe cells;
  - the relations "only reveals" and "only places bombs";
  - the right-click transition on one field state;
  - the cardinality facts the counter accounting needs.
- `Neighbours` (`neighbours.dfy`):
  - the four-corner-flag rule that decides which of the eight neighbours of a cell the engine looks at;
  - the bomb count that rule induces;
  - the notion of a cell the reveal cascade has gone through;
  - how the rule compares with the plain "on the board" test.
- `Logic` (`minesweeper.dfy`): the class `Minesweeper`.
  - It has the engine's own fields, and a two-dimensional array `grid` indexed `[x, y]` (column, row) as in the engine.
  - A ghost map `cells` mirrors the array. The object invariant `Valid()` keeps the two equal, and every write to the engine's grid goes through `Store`.
  - Every operation of the engine is a method or function, with contracts in terms of the `Field` and `Neighbours` views.

The random number generator of the bomb placement is replaced by a
parameter. The constructor and `MineFieldTime` take a sequence `samples` of
coordinates: the draws the generator would produce, in order. Placement is
specified by the function `Place`, which consumes the draws exactly as the
engine's loop does. A draw that hits a bomb already there is drawn again,
which is the engine's `i--`.

The constructor requires at least 25 distinct draws, which stands for "the
generator eventually hits 25 distinct cells". It also requires a board with
at least 25 cells.

Several behaviours of the code differ from its documentation, and the
model states the code's behaviour:

- **Toggle.** The right click maps a flag to hidden, and every other state to a flag. This includes a visible cell, which is thereby turned into a flag and counts as unrevealed again. The documented four-state cycle is not implemented (`ToggleAgainstDocumentation`).
- **Reveal.** It always calls the recursive reveal and always decrements the counter, even on an already visible cell or a bomb.
  - A bomb whose own count is zero cascades like any other cell.
  - A counter that equals the number of unrevealed safe cells still does after a click exactly when the clicked cell was an unrevealed safe cell. This is the last clause of `Reveal`.
- **Cascade.** It skips only visible neighbours, so flagged cells are revealed by it. The cells a click reveals are exactly the unrevealed cells reached from the clicked cell by steps from a zero cell to an admitted neighbour that holds no bomb and was not visible when the click began (`Neighbours.Reaches`). This is stated by `Reveal`, `RecursiveReveal` and `RevealedIsReach`.
- **Narrow boards.** The corner-flag rule agrees with the plain bounds test only on boards at least two cells wide and high. On a single row or column it admits no neighbour at all (`NarrowBoardAdmitsNothing`, `SingleColumnDropsNeighbours`).
- **Question marks.** Nothing produces the question-mark state. `Valid()` keeps every cell hidden, visible or flagged.
- **Remaining bombs.** `getRemainingBombCount` is always 0. Neither the flag counter nor the remaining-bomb counter is ever updated.
- **Smallest board.** The constructor accepts a board of exactly 25 cells. All of them become bombs and `blockAmount` starts at 0, so `didWin` holds before any click.
- **Winning.** The documentation says winning means "every flag is on a bomb". The code's `didWin` tests `blockAmount == 0`. While the counter matches, that means every safe cell is visible, whatever flags are placed (`WinMeansSafeCellsRevealed`).

## Model

| member | source | states |
|---|---|---|
| Field.ToggledState | src/main/java/cz/educanet/minesweeper/logic/Minesweeper.java:72-79 | the result is hidden or a flag, and it is hidden exactly when the old state was a flag |
| Field.ToggleTwice | src/main/java/cz/educanet/minesweeper/logic/Minesweeper.java:72-79 | toggling twice restores a flag, and turns every other state (including visible and question mark) into hidden |
| Field.ToggleAgainstDocumentation | src/main/java/cz/educanet/minesweeper/logic/Minesweeper.java:61-79 | the toggle agrees with the documented 0→1→2→3→0 cycle exactly on the visible state, and a visible cell becomes a flag |
| Field.AllCellsMembership | src/main/java/cz/educanet/minesweeper/logic/Minesweeper.java:21-27 | the board's coordinates are exactly those with 0 ≤ x < columns and 0 ≤ y < rows |
| Field.AllCellsCount | src/main/java/cz/educanet/minesweeper/logic/Minesweeper.java:21-29 | a columns by rows board has `Area(columns, rows)` cells |
| Field.AreaIsProduct | src/main/java/cz/educanet/minesweeper/logic/Minesweeper.java:29 | `Area(columns, rows)` is `rows * columns`, the product the constructor uses |
| Field.RevealsOnlyTransitive | src/main/java/cz/educanet/minesweeper/logic/Minesweeper.java:95-113 | two steps that only make cells visible compose into one such step |
| Field.RevealsOnlyViews | src/main/java/cz/educanet/minesweeper/logic/Minesweeper.java:95-113 | making cells visible keeps every bomb where it was, only shrinks the unrevealed cells, and introduces no question mark |
| Field.ShowOne | src/main/java/cz/educanet/minesweeper/logic/Minesweeper.java:96 | setting one cell to visible only reveals, and removes exactly that cell from the unrevealed ones |
| Field.PlaceOne | src/main/java/cz/educanet/minesweeper/logic/Minesweeper.java:41 | setting one bomb flag only places bombs, adds exactly that cell to the bombs and reveals nothing |
| Field.PlacedViews | src/main/java/cz/educanet/minesweeper/logic/Minesweeper.java:32-45 | placing bombs never removes a bomb and leaves the unrevealed cells as they were |
| Field.BombsPlacedTransitive | src/main/java/cz/educanet/minesweeper/logic/Minesweeper.java:34-43 | two steps that only place bombs compose into one such step |
| Field.SafeRevealCount | src/main/java/cz/educanet/minesweeper/logic/Minesweeper.java:87-113 | when the newly visible cells hold no bomb, the unrevealed safe cells drop by exactly the number of cells revealed |
| Field.ToggleCount | src/main/java/cz/educanet/minesweeper/logic/Minesweeper.java:72-79 | a toggle keeps the bombs, adds the cell to the unrevealed ones, and raises the unrevealed safe count by one exactly when the cell was visible and safe |
| Neighbours.Admits | src/main/java/cz/educanet/minesweeper/logic/Minesweeper.java:98-101 | the corner flags and the guard of each of the eight directions, as the engine computes them |
| Neighbours.AdmitsInBounds | src/main/java/cz/educanet/minesweeper/logic/Minesweeper.java:98-111 | a neighbour the corner flags admit lies on the board, so the engine never indexes outside its grid |
| Neighbours.AlongRevealed | src/main/java/cz/educanet/minesweeper/logic/Minesweeper.java:103-111 | when every admitted safe neighbour along a list of directions is revealed, every admitted safe neighbour is |
| Neighbours.HandledPrefix | src/main/java/cz/educanet/minesweeper/logic/Minesweeper.java:103-111 | handling one more of the eight blocks in their order keeps the blocks already handled handled |
| Neighbours.CountAlongIsCardinality | src/main/java/cz/educanet/minesweeper/logic/Minesweeper.java:130-138 | the guarded increments along distinct directions add up to the number of bombs among the neighbours admitted along them |
| Neighbours.EightTerms | src/main/java/cz/educanet/minesweeper/logic/Minesweeper.java:130-138 | the eight increments in the engine's order equal the number of bombs among the admitted neighbours, which is at most 8 |
| Neighbours.AllTerms | src/main/java/cz/educanet/minesweeper/logic/Minesweeper.java:130-138 | the count along the engine's order unfolds into its eight terms |
| Neighbours.EdgeTerms | src/main/java/cz/educanet/minesweeper/logic/Minesweeper.java:135-138 | the count along the four edge directions unfolds into its four terms |
| Neighbours.FlagTerms | src/main/java/cz/educanet/minesweeper/logic/Minesweeper.java:125-138 | the count written with the four corner flags as the engine computes them equals the admitted-neighbour bomb count, which is at most 8 |
| Neighbours.AdmittedIsRing | src/main/java/cz/educanet/minesweeper/logic/Minesweeper.java:125-138 | on a board at least 2 by 2, the admitted neighbours are exactly the on-board cells differing by at most one in each axis, other than the cell itself |
| Neighbours.NarrowBoardAdmitsNothing | src/main/java/cz/educanet/minesweeper/logic/Minesweeper.java:125-128 | on a single row or column no neighbour is admitted and every count is 0 |
| Neighbours.SingleColumnDropsNeighbours | src/main/java/cz/educanet/minesweeper/logic/Minesweeper.java:125-128 | on a single column with two or more rows, the admitted neighbours differ from the on-board neighbours |
| Neighbours.ClosedMonotone | src/main/java/cz/educanet/minesweeper/logic/Minesweeper.java:97-111 | a cell whose admitted safe neighbours are revealed stays so as more cells are revealed |
| Neighbours.ReachTrans | src/main/java/cz/educanet/minesweeper/logic/Minesweeper.java:103-111 | cells a nested cascade from a neighbour reaches, within fewer unrevealed cells, are reached from any cell that reaches that neighbour |
| Neighbours.ReachExtend | src/main/java/cz/educanet/minesweeper/logic/Minesweeper.java:103-111 | a nested reveal from a neighbour one cascade step away reveals only cells reached from the outer cell |
| Neighbours.ClosureContainsReach | src/main/java/cz/educanet/minesweeper/logic/Minesweeper.java:97-111 | when the start and every revealed cell are closed, every cell reached from the start is revealed |
| Neighbours.RevealedIsReach | src/main/java/cz/educanet/minesweeper/logic/Minesweeper.java:95-113 | a reveal that closes every cell it reveals and reveals only reached cells reveals exactly the unrevealed cells reached from its start |
| Logic.Place | src/main/java/cz/educanet/minesweeper/logic/Minesweeper.java:34-43 | the draw-and-retry placement on a board value: draws in order, a draw on a bomb is drawn again, any other draw gets a bomb, until n bombs are placed; the coordinates are kept |
| Logic.EmptyBoard | src/main/java/cz/educanet/minesweeper/logic/Minesweeper.java:21-27 | the board after the fill loops has exactly the in-bounds coordinates, each holding a new cell |
| Logic.EmptyBoardViews | src/main/java/cz/educanet/minesweeper/logic/Minesweeper.java:21-27 | a fresh board has no bombs, every cell unrevealed and no question marks |
| Logic.PlaceOnlyPlaces | src/main/java/cz/educanet/minesweeper/logic/Minesweeper.java:34-43 | the placement changes nothing but bomb flags, and only from false to true |
| Logic.PlaceWithinDraws | src/main/java/cz/educanet/minesweeper/logic/Minesweeper.java:35-41 | every bomb the placement adds lies on a drawn cell |
| Logic.PlaceAdds | src/main/java/cz/educanet/minesweeper/logic/Minesweeper.java:37-42 | the placement adds exactly one bomb per draw that missed the existing bombs |
| Logic.PlacedAll | src/main/java/cz/educanet/minesweeper/logic/Minesweeper.java:34-43 | with at least n distinct draws outside the bombs, the loop places all n bombs before the draws run out |
| Logic.PlaceCount | src/main/java/cz/educanet/minesweeper/logic/Minesweeper.java:34-43 | with at least n distinct draws outside the bombs, the placement puts exactly n more bombs on the board |
| Logic.Draw | src/main/java/cz/educanet/minesweeper/logic/Minesweeper.java:35-42 | one iteration of the loop: a draw exists, and enough free draws remain after a retry (hit) or after placing a bomb (miss) |
| Logic.PlacementReady | src/main/java/cz/educanet/minesweeper/logic/Minesweeper.java:28 | on a fresh board every distinct draw is free, so 25 distinct draws are enough |
| Logic.FilledBoard | src/main/java/cz/educanet/minesweeper/logic/Minesweeper.java:17-45 | after placement on a fresh board exactly 25 cells hold bombs, all on drawn cells, and every cell is hidden |
| Logic.FilledCount | src/main/java/cz/educanet/minesweeper/logic/Minesweeper.java:28-29 | after placement on a fresh board the unrevealed safe cells number `rows * columns - 25` |
| Logic.AdvancedStart | src/main/java/cz/educanet/minesweeper/logic/Minesweeper.java:96-97 | a cascade that has revealed nothing yet has made no progress and spent nothing of the counter |
| Logic.AdvanceByNeighbour | src/main/java/cz/educanet/minesweeper/logic/Minesweeper.java:103-111 | one guarded block (one decrement, then a nested reveal that decrements once per further cell) extends the cascade's progress |
| Logic.CascadeDone | src/main/java/cz/educanet/minesweeper/logic/Minesweeper.java:95-113 | a finished cascade revealed, apart from its cell, only safe cells, one decrement each, and left all of them closed |
| Logic.ReachedChain | src/main/java/cz/educanet/minesweeper/logic/Minesweeper.java:103-111 | cells revealed in two successive stages, each reached from the start, are reached from the start |
| Logic.ReachedWithStart | src/main/java/cz/educanet/minesweeper/logic/Minesweeper.java:96-111 | the start cell together with the cells reached since it was shown are all reached |
| Logic.RevealAccounting | src/main/java/cz/educanet/minesweeper/logic/Minesweeper.java:87-93 | the click's counter change is one per revealed cell, plus one when the clicked cell was already visible, so a matching counter stays matching exactly when the clicked cell was an unrevealed safe cell |
| Logic.NewCells | src/main/java/cz/educanet/minesweeper/logic/Minesweeper.java:21-27 | allocates a columns by rows array and fills every cell with a new cell, agreeing with `EmptyBoard` |
| Logic.Minesweeper.constructor | src/main/java/cz/educanet/minesweeper/logic/Minesweeper.java:17-30 | the new engine has the given dimensions, a cleared loss flag, the board `Place` builds from the draws on an empty board, and `blockAmount = rows * columns - 25` equal to its unrevealed safe cells |
| Logic.Minesweeper.Populate | src/main/java/cz/educanet/minesweeper/logic/Minesweeper.java:18-29 | from the empty board: clears the loss flag, places the bombs as `Place` does, and sets the counter to the number of unrevealed safe cells |
| Logic.Minesweeper.MineFieldTime | src/main/java/cz/educanet/minesweeper/logic/Minesweeper.java:32-45 | the loop leaves exactly the board `Place` gives for the draws, keeps the object invariant, and returns the grid |
| Logic.Minesweeper.Store | src/main/java/cz/educanet/minesweeper/logic/Minesweeper.java:41 | one cell write into the array, with the mirrored board updated at that coordinate only |
| Logic.Minesweeper.GetField | src/main/java/cz/educanet/minesweeper/logic/Minesweeper.java:57-59 | returns the cell's field state, which is hidden, visible or flag, and is visible exactly when the cell is not unrevealed |
| Logic.Minesweeper.ToggleFieldState | src/main/java/cz/educanet/minesweeper/logic/Minesweeper.java:72-79 | only cell (x, y) changes, to its toggled state; the bombs are kept; a matching counter stops matching exactly when a visible safe cell was turned into a flag |
| Logic.Minesweeper.Reveal | src/main/java/cz/educanet/minesweeper/logic/Minesweeper.java:87-93 | the loss flag is set once a bomb is clicked and never cleared; only reveals happen; the clicked cell is visible; the other revealed cells are safe and closed; the revealed cells are exactly the unrevealed cells reached from (x, y); the counter drops by the number revealed (one more when the cell was already visible); a matching counter keeps matching exactly when (x, y) was an unrevealed safe cell |
| Logic.Minesweeper.RecursiveReveal | src/main/java/cz/educanet/minesweeper/logic/Minesweeper.java:95-113 | terminates as the unrevealed cells shrink; only reveals; (x, y) is visible; every other cell it reveals is safe and costs one decrement; every cell it reveals is closed; every cell it reveals is reached from (x, y), and every unrevealed cell reached from (x, y) is revealed; with a nonzero count only (x, y) changes |
| Logic.Minesweeper.RevealNeighbour | src/main/java/cz/educanet/minesweeper/logic/Minesweeper.java:103-111 | one guarded block: when the neighbour is admitted and not a bomb it ends up visible; when the guard fails nothing changes; from a zero cell it reveals only cells reached from (x, y); the cascade's progress is kept; the unrevealed cells only shrink |
| Logic.Minesweeper.GetAdjacentBombCount | src/main/java/cz/educanet/minesweeper/logic/Minesweeper.java:122-142 | the count is in 0..8 and equals the number of bombs among the neighbours the corner flags admit |
| Logic.Minesweeper.BombIf | src/main/java/cz/educanet/minesweeper/logic/Minesweeper.java:130-138 | one guarded increment is 1 exactly when the guard holds and that cell is a bomb |
| Logic.Minesweeper.IsBombOnPosition | src/main/java/cz/educanet/minesweeper/logic/Minesweeper.java:151-153 | true exactly when (x, y) is among the board's bombs |
| Logic.Minesweeper.GetBombCount | src/main/java/cz/educanet/minesweeper/logic/Minesweeper.java:160-162 | the engine always reports 25 bombs |
| Logic.Minesweeper.GetRemainingBombCount | src/main/java/cz/educanet/minesweeper/logic/Minesweeper.java:169-171 | the remaining-bomb count is always 0 |
| Logic.Minesweeper.DidWin | src/main/java/cz/educanet/minesweeper/logic/Minesweeper.java:178-180 | won exactly when the counter is 0 |
| Logic.Minesweeper.DidLose | src/main/java/cz/educanet/minesweeper/logic/Minesweeper.java:187-189 | lost exactly when the loss flag is set |
| Logic.Minesweeper.GetRows | src/main/java/cz/educanet/minesweeper/logic/Minesweeper.java:191-193 | the row count is the grid's second dimension |
| Logic.Minesweeper.GetColumns | src/main/java/cz/educanet/minesweeper/logic/Minesweeper.java:195-197 | the column count is the grid's first dimension |
| Logic.Minesweeper.WinMeansSafeCellsRevealed | src/main/java/cz/educanet/minesweeper/logic/Minesweeper.java:173-180 | while the counter matches, the game is won exactly when every cell without a bomb is visible, whatever the flags |

## Left out

- **Random generator.** `java.util.Random` is replaced by the draw sequence `samples`. Termination of the rejection sampling is not claimed: the constructor requires at least 25 distinct draws and a board of at least 25 cells.
- **The `Grid` class.** It is not part of this model. Its object becomes the value `Grid(bomb, fieldState)`. Each engine cell is its own object, so no aliasing is lost. A new cell is assumed to hold no bomb and be hidden.
- **32-bit arithmetic.** Integers are unbounded. `rows * columns - 25` fits in an `int` on boards of fewer than 2^31 cells. On larger boards the Java product wraps, so `blockAmount` starts wrong and `didWin` may never hold; this is not modelled. Every click decrements `blockAmount`, visible cells included, so the counter drops by at least one per click. The wrap-around of the Java `int` after about 2^31 further decrements is not modelled.
- **Exceptions.** Java stack depth and array-index exceptions are not modelled. Callers are required to pass on-board coordinates.
- **Presentation.** The UI layer is not part of this model.
- Logic.Minesweeper.RecursiveReveal: the eight guarded blocks are one loop over the eight directions in the engine's order. The first block decrements after its nested call and the others before; nothing reads the counter during the cascade, so the order is not modelled.
- Logic.Minesweeper.Populate: the constructor's statements after the fill loops form a separate method. Clearing the loss flag moves from the first statement to this point; nothing reads that flag in between.
- Logic.Minesweeper.MineFieldTime: it takes a `columns` and `rows` no larger than the board's, as the engine's callers pass. The draw sequence stands in for `nextInt(columns)` and `nextInt(rows)`.
