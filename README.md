# Minesweeper rule engine in Dafny

This project models the rule engine of a single-screen Minesweeper game and
proves properties of it. The engine is the state and the local functions of
the `MinesweeperGame` composable.

The model covers these parts:

- **Catalog.** Three preset levels: 8 x 8 with 8 mines, 10 x 10 with 15 and
  14 x 10 with 30. The session cycles through them.
- **Board.** A flat list of `rows * cols` cells in row-major order. The cell
  with id `i` sits at row `i / cols` and column `i % cols`.
- **Game state.** `NotStarted`, `Running`, `Won` and `Lost`, plus a mine
  counter and a timer value. Until a win the counter is the level's mines
  minus the flags; a win sets it to 0.
- **Operations.**
  - Starting a new game and moving to the next level.
  - Generating the board on the first click. Mines are placed by rejection
    sampling, then every non-mine cell gets its number of adjacent mines.
  - The recursive flood fill that opens a cell and, when its number is 0, all
    of its neighbours.
  - The click handler, including loss, win and first-click generation.
  - The long-press handler that toggles a flag.

## Files and modules

- `Cells.dfy`, module `Cells`:
  - The `Cell`, `LevelConfig` and `GameState` values and the level catalog.
  - Counting cells of a board that satisfy a predicate, with its lemmas.
- `Adjacency.dfy`, module `Adjacency`:
  - The neighbour count, once as an eight-term sum and once in the order of
    `generateBoard`'s nested loops.
  - The method that computes the count with those loops.
- `Reveal.dfy`, module `Reveal`:
  - The flood fill, in place on an array, as a recursive method with
    `revealCellsRecursive`'s nested loops.
  - The reveal of all mines on a loss.
- `Generator.dfy`, module `Generator`:
  - Mine placement by rejection sampling and writing the numbers, in place.
- `Game.dfy`, module `Game`:
  - The class `MinesweeperGame` with the session fields and one method per
    operation.
  - `Session`, the invariant those methods keep.
  - Lemmas stating what each transition does to a session, on plain sequence
    values.

## Modelling decisions

- **State.** The composable's `remember` state becomes the fields of the
  class `MinesweeperGame`.
- **Board copies.** The source replaces the whole `board` list after working
  on a mutable copy. The model does the same: it copies into a fresh array,
  works on that array in place, then assigns it to the field.
- **Initial board.** `board` starts as an empty array. The constructor then
  calls `StartNewGame`, as the first composition does.
- **Randomness.** `(0 until totalCells).random()` is replaced by a
  caller-supplied sequence `draws` of the indices the random source would
  return, in order. The caller must supply enough eligible draws for the loop
  to finish (`DrawsSuffice`). With a true random source the loop only ends
  with probability 1.
- **Cells by id.** The click and long-press handlers take the cell's id and
  read the cell as `board[id]`.
- **Stated behaviour: a long press ends the pre-game without mines.** A long
  press on a new game moves the state from `NotStarted` to `Running`. No
  mines are generated then. Generation only happens in `onCellClick` when the
  state is `NotStarted`, so that game never receives mines. The model keeps
  this behaviour. `MinesweeperGame.OnCellLongPress`'s last ensures states it,
  and `Session` allows a running board with no mines.
- **Termination.** Termination of `revealCellsRecursive` is proved as the
  code's structure implies. Every recursive call starts after at least one
  more cell has been revealed, so the number of hidden cells measures the
  recursion.
- **Flood fill bounds.** The contract of `Reveal.RevealCellsRecursive` bounds
  the revealed cells from both sides:
  - From below: every 0-numbered cell it reveals ends with all its neighbours
    revealed or flagged.
  - From above: every cell it reveals is joined to the start by a path of
    neighbouring cells, each revealed by this call, each but the last
    numbered 0. `Reveal.FloodConfined` turns this into the flood barrier: a
    region around the start that the cascade cannot leave (its border is
    flagged, revealed or numbered) contains every changed cell.
- **Flood fill idempotence.** A call on a settled cell (revealed or flagged)
  changes nothing, and every call leaves its start cell settled.
  `Reveal.FloodIdempotent` proves that a second flood from the same start
  changes nothing.

## Model

| member | source | states |
|---|---|---|
| Cells.NextIndex | app/src/main/java/com/example/myapplication/MainActivity.kt:97-103 | the next level index stays in the catalog and equals (i + 1) mod 3: the levels cycle, from the last level back to the first |
| Cells.Count | app/src/main/java/com/example/myapplication/MainActivity.kt:205 | the number of cells satisfying a predicate is at most the board size |
| Cells.CountUpdate | app/src/main/java/com/example/myapplication/MainActivity.kt:136-137 | replacing one cell changes a count by exactly the difference the two cells make to it |
| Cells.CountComplement | app/src/main/java/com/example/myapplication/MainActivity.kt:205-206 | mine cells and safe cells together make up the whole board |
| Cells.CountImpliesStrict | app/src/main/java/com/example/myapplication/MainActivity.kt:205-206 | if every revealed cell is safe and some safe cell is hidden, fewer cells are revealed than are safe |
| Adjacency.AdjacentMines | app/src/main/java/com/example/myapplication/MainActivity.kt:144-157 | a cell's number counts the mines among its eight on-grid neighbours, and is between 0 and 8 |
| Adjacency.MineAt | app/src/main/java/com/example/myapplication/MainActivity.kt:153-155 | an offset contributes 1 exactly when it is on the grid and its cell is a mine, and 0 otherwise |
| Adjacency.LoopOrderCount | app/src/main/java/com/example/myapplication/MainActivity.kt:148-157 | visiting the nine offsets in loop order and skipping the centre gives the same count as the eight-neighbour sum |
| Adjacency.CountAdjacentMines | app/src/main/java/com/example/myapplication/MainActivity.kt:145-158 | generateBoard's nested loops compute exactly AdjacentMines at the cell's row and column |
| Adjacency.AdjacentFrame | app/src/main/java/com/example/myapplication/MainActivity.kt:154 | a mine count depends only on which cells are mines |
| Adjacency.ConsistentFrame | app/src/main/java/com/example/myapplication/MainActivity.kt:169 | revealing or flagging cells keeps every number correct |
| Adjacency.NoMinesConsistent | app/src/main/java/com/example/myapplication/MainActivity.kt:91-93 | a new board, with no mines and every number 0, has correct numbers |
| Adjacency.NoMineNearZero | app/src/main/java/com/example/myapplication/MainActivity.kt:172-181 | around a cell whose number is 0, no neighbour on the grid is a mine |
| Adjacency.ThreeByThreeExample | app/src/main/java/com/example/myapplication/MainActivity.kt:143-158 | on a 3 x 3 grid with mines at ids 0 and 4, cell 1 shows 2 and cell 8 shows 1 |
| Reveal.RevealCellsRecursive | app/src/main/java/com/example/myapplication/MainActivity.kt:165-184 | on a revealed or flagged cell nothing changes; otherwise the start cell is revealed; only hidden, unflagged cells are revealed, and only their revealed flag changes; every 0-numbered cell it reveals ends with all its neighbours revealed or flagged; every cell it reveals is reached from the start through neighbouring 0-numbered cells it revealed; started from a safe cell of a consistent board, it reveals no mine; it terminates |
| Reveal.FloodConfined | app/src/main/java/com/example/myapplication/MainActivity.kt:165-184 | a flood changes no cell outside a region that contains the start and from which no hidden, unflagged 0-cell cascades out: flagged cells on the border are a barrier |
| Reveal.ConfinedAt | app/src/main/java/com/example/myapplication/MainActivity.kt:171-180 | by induction on the cascade path, every cell the flood reveals lies in such a closed region |
| Reveal.FloodIdempotent | app/src/main/java/com/example/myapplication/MainActivity.kt:167 | a second flood from the same start leaves the board exactly as the first one left it |
| Reveal.FloodBarrierExample | app/src/main/java/com/example/myapplication/MainActivity.kt:165-184 | on a 1 x 3 mine-free board with the middle cell flagged, a flood from the left cell reveals that cell only; the cell behind the flag stays hidden |
| Reveal.OnlyRevealsTrans | app/src/main/java/com/example/myapplication/MainActivity.kt:176-179 | successive reveals compose into one reveal |
| Reveal.ClosedTrans | app/src/main/java/com/example/myapplication/MainActivity.kt:172-182 | the closure of 0-cells established by earlier recursive calls survives later ones |
| Reveal.HiddenShrink | app/src/main/java/com/example/myapplication/MainActivity.kt:167-169 | revealing never increases the number of hidden cells, which is the recursion's termination measure |
| Reveal.NeighbourSafe | app/src/main/java/com/example/myapplication/MainActivity.kt:172-180 | each neighbour a 0-numbered safe cell recurses into is itself a safe start |
| Reveal.FloodStep | app/src/main/java/com/example/myapplication/MainActivity.kt:174-181 | one inner-loop iteration, a recursive call or a skip, keeps the loop's progress, with one more offset settled |
| Reveal.FloodFinish | app/src/main/java/com/example/myapplication/MainActivity.kt:172-183 | after all nine offsets the cell's flood fill meets its full contract |
| Reveal.RevealAllMines | app/src/main/java/com/example/myapplication/MainActivity.kt:200-202 | every mine cell is revealed and every other cell is left exactly as it was |
| Generator.CandidatesSound | app/src/main/java/com/example/myapplication/MainActivity.kt:134-140 | every cell the sampling loop can mine was drawn, is not the safe cell and was not a mine |
| Generator.SampleStep | app/src/main/java/com/example/myapplication/MainActivity.kt:135-139 | one draw either mines a new eligible cell, adding one to the mine count, or changes nothing |
| Generator.PlaceMines | app/src/main/java/com/example/myapplication/MainActivity.kt:132-140 | the new board is the old one with exactly the chosen cells (the first totalMines distinct eligible draws, in draw order) turned into mines and nothing else changed; so exactly totalMines new mines, the safe cell untouched, no cell mined twice |
| Generator.StopAtExact | app/src/main/java/com/example/myapplication/MainActivity.kt:134-139 | each draw adds at most one eligible cell, so the loop stops at the first prefix of the draws holding exactly totalMines eligible cells |
| Generator.ChosenSound | app/src/main/java/com/example/myapplication/MainActivity.kt:134-140 | with enough draws, exactly totalMines cells are chosen, each drawn, none the safe cell, none a mine before |
| Generator.ChosenExample | app/src/main/java/com/example/myapplication/MainActivity.kt:134-140 | three mine-free cells, safe cell 0, draws 1 then 2 and one mine: cell 1 is mined and cell 2 is not, so placement is fixed by the draw sequence |
| Generator.NumberStep | app/src/main/java/com/example/myapplication/MainActivity.kt:143-159 | one iteration of the numbering loop keeps its state: cells before the index carry their adjacent-mine count unless they are mines, later cells and mine cells are untouched |
| Generator.WriteNumbers | app/src/main/java/com/example/myapplication/MainActivity.kt:143-160 | every non-mine cell gets the count of mines around its index's row and column; mine cells and all other fields are unchanged |
| Game.NewGameSession | app/src/main/java/com/example/myapplication/MainActivity.kt:87-94 | a new board starts a session: no mines, correct numbers, no flags, and the counter at totalMines |
| Game.GeneratedSession | app/src/main/java/com/example/myapplication/MainActivity.kt:193-196 | after generation the running session has exactly totalMines mines, none on the clicked cell, correct numbers everywhere, nothing revealed or flagged, and the counter at totalMines |
| Game.LossSession | app/src/main/java/com/example/myapplication/MainActivity.kt:198-202 | revealing all mines keeps the invariant of a lost session |
| Game.FloodSession | app/src/main/java/com/example/myapplication/MainActivity.kt:203-210 | after the flood fill the session is Won with counter 0 exactly when rows * cols - totalMines cells are revealed, and Running with the counter unchanged otherwise |
| Game.FlagSession | app/src/main/java/com/example/myapplication/MainActivity.kt:219-225 | toggling a flag gives a running session whose counter moves by -1 or +1, so counter + flags == totalMines; the mine count is unchanged and is 0 if the game had not started |
| Game.WinCondition | app/src/main/java/com/example/myapplication/MainActivity.kt:205-206 | on a board with the level's mines and none of them revealed, rows * cols - totalMines revealed cells means every safe cell is revealed, and the converse |
| Game.MinePlay | app/src/main/java/com/example/myapplication/MainActivity.kt:198-202 | clicking a mine loses the game, reveals every mine and leaves the counter unchanged |
| Game.FloodPlay | app/src/main/java/com/example/myapplication/MainActivity.kt:203-210 | clicking a safe cell floods from it, revealing only cells the cascade reaches, and applies the win test |
| Game.ClickConfined | app/src/main/java/com/example/myapplication/MainActivity.kt:203-204 | a click on a safe cell changes no cell outside a closed region around it, so flags shield the cells behind them |
| Game.FreshReached | app/src/main/java/com/example/myapplication/MainActivity.kt:193-204 | on the first click, where nothing was revealed before, every revealed cell afterwards was reached by the cascade from the clicked cell |
| Game.FirstClickPlay | app/src/main/java/com/example/myapplication/MainActivity.kt:193-210 | the first click never loses; it leaves the level's mines on the board, the clicked cell safe and revealed, nothing flagged, every revealed 0-cell with all neighbours revealed, and every revealed cell reached by the cascade from the clicked cell; the flood changes no mine flag and no number |
| Game.FreshFloodClosed | app/src/main/java/com/example/myapplication/MainActivity.kt:172-183 | on a board with nothing revealed, every cell the flood reveals with number 0 has all its neighbours settled |
| Game.Play | app/src/main/java/com/example/myapplication/MainActivity.kt:198-210 | the mine branch or the flood branch of the click, on the working copy: a mine loses and reveals exactly the mines; any other cell reveals only cells its cascade reaches, leaves no reached 0-cell with a hidden unflagged neighbour, and wins exactly when rows * cols - totalMines cells are revealed |
| Game.GeneratedMines | app/src/main/java/com/example/myapplication/MainActivity.kt:130-140 | on the pristine board of a game not yet started, generateBoard's mines are exactly the chosen draws, and every mine keeps the fresh cell's number 0 |
| Game.FirstClickMinesKept | app/src/main/java/com/example/myapplication/MainActivity.kt:195-209 | the play that follows generation changes no mine flag and no number, so the first click's board still has exactly the chosen mines |
| Game.GeneratedLayout | app/src/main/java/com/example/myapplication/MainActivity.kt:129-162 | placement followed by numbering changes only mine flags and numbers; the mines afterwards are exactly the old mines and the chosen cells; every new mine was drawn and keeps its number |
| Game.CopyBoard | app/src/main/java/com/example/myapplication/MainActivity.kt:191 | a fresh array with the board's contents |
| Game.MinesweeperGame.constructor | app/src/main/java/com/example/myapplication/MainActivity.kt:78-84 | the first composition: level 0, then a new game on it |
| Game.MinesweeperGame.StartNewGame | app/src/main/java/com/example/myapplication/MainActivity.kt:87-94 | state NotStarted, counter totalMines, timer 0, and rows * cols new cells with id i, row i / cols and column i % cols, none mined, flagged or revealed, all numbered 0 |
| Game.MinesweeperGame.NextLevel | app/src/main/java/com/example/myapplication/MainActivity.kt:97-112 | the level index advances cyclically and a new game starts on the new level |
| Game.MinesweeperGame.GenerateBoard | app/src/main/java/com/example/myapplication/MainActivity.kt:129-162 | a fresh board copied from the `board` field whose mines are exactly the old mines plus the first totalMines distinct eligible draws; the safe cell's mine status unchanged; only the mine flag and number change; mine cells keep their number; every other cell numbered by its adjacent mines |
| Game.MinesweeperGame.WorkingBoard | app/src/main/java/com/example/myapplication/MainActivity.kt:191-196 | during a game a copy of the board; on the first click the generated board, whose session has the level's mines and nothing revealed, and whose mines are exactly the first totalMines distinct eligible draws, each with number 0 |
| Game.MinesweeperGame.OnCellClick | app/src/main/java/com/example/myapplication/MainActivity.kt:187-212 | ignored once the game is over or on a flagged or revealed cell; during a game, a mine loses and reveals every mine, any other cell floods and reveals only cells its cascade reaches from the clicked cell, winning with counter 0 exactly when rows * cols - totalMines cells are revealed; on the first click the mines are exactly the first totalMines distinct draws other than the clicked cell, each with number 0, so it never loses; the session invariant is kept |
| Game.MinesweeperGame.Click | app/src/main/java/com/example/myapplication/MainActivity.kt:191-211 | past the guards: the first click generates the board with exactly the first totalMines distinct draws other than the clicked cell as mines, each with number 0, and never loses; a later click loses on a mine, revealing every mine, or floods from the cell and wins exactly when rows * cols - totalMines cells are revealed; the new board is published |
| Game.MinesweeperGame.OnCellLongPress | app/src/main/java/com/example/myapplication/MainActivity.kt:215-227 | ignored once the game is over or on a revealed cell; otherwise the flag of that cell is toggled, nothing else changes, the state becomes Running and the counter moves by -1 or +1; a long press before the first click leaves a running game without mines |

## Left out

- Timer: the `LaunchedEffect(gameState)` loop (MainActivity.kt:118-126) that updates `timeSeconds` from the wall clock once a second is left out, because it is clock and coroutine timing. The model sets the timer to 0 on a new game and leaves it untouched otherwise.
- Recomposition: the `LaunchedEffect` calls that run `startNewGame` on the first composition and when the level changes (MainActivity.kt:110-115) are modelled as direct calls, at the end of the constructor and of `NextLevel`. The asynchrony between the level change and the reset is not modelled.
- Randomness: `random()` is replaced by the `draws` parameter. Termination of the sampling loop with a true random source holds only with probability 1.
- Generator.PlaceMines: requires `0 <= totalMines`, and the catalog's levels meet this requirement.
- Level names: `LevelConfig.name` is display text only and is not kept.
- User interface: the activity, the Compose layout, `getNumberColor`, colours and sizes (MainActivity.kt:50-65 and 229 onwards) are presentation only.
- Integer width: Kotlin's `Int` is 32 bits, while the model uses unbounded integers. Every value involved stays far inside 32 bits, with at most 140 cells and a counter between -140 and 30.
- Stack depth: the nesting depth of `revealCellsRecursive` is at most the number of cells it reveals. The JVM call stack is not modelled.
- Stale cell arguments: the handlers are modelled as reading `board[id]`. `MineCell` installs its gesture handlers under `pointerInput(cell.isRevealed)` (MainActivity.kt:364-368), which restarts only when `isRevealed` changes, so the `Cell` passed at MainActivity.kt:337-338 may be one captured before a later flag toggle or reset. Such a stale argument is not modelled; for example, a second long press that still sees `isFlagged == false` and flags again. Nor is a stale handler closure: after `nextLevel`, a handler not yet restarted still holds the earlier composition's `currentLevel` (MainActivity.kt:79), so a click could generate and flood with the old level's rows, columns and mines.
