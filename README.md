# Tic-tac-toe engine in Dafny

This project models the game engine of a console tic-tac-toe program. The
original is a single C++ file. Its engine is one global 3x3 `char` board
holding `' '`, `'X'` (the human, who moves first and minimizes) or `'O'` (the
computer, which maximizes). Around the board sit a few routines:

- `initializeBoard` clears the board.
- `isMovesLeft` tests for an empty cell.
- `checkWin` tests the eight lines.
- `evaluate` scores a position +10, -10 or 0.
- `minimax` is an exhaustive, depth-biased search. It places a mark, recurses and writes the cell back to `' '`.
- `findBestMove` keeps every move that reaches the best value and breaks ties with `rand()`.
- `getRandomMove` picks an empty cell with `rand()`.
- The game loop's end-of-turn step checks for a win, then a draw, then switches player.

Layout:

- `rules.dfy` (module `Rules`): the board as a value and the rules on it.
  A board is a row-major `seq<char>` of 9 cells, so cell (i, j) is index
  `3 * i + j`. The module also defines the eight lines, `Wins`, `HasEmpty`,
  the set of empty cells, the static `Evaluation` and the end-of-turn step.
- `search.dfy` (module `Search`): `MinimaxValue`, the value the search
  computes, as a pure function. `Scan` is the running best of its loops over
  the cells, starting from the `numeric_limits<int>` sentinels. The module
  also proves the lemmas about that value.
- `selection.dfy` (module `Selection`): the best-move scan and the
  empty-cell scan of the two selectors, as pure functions. It also defines
  the `rand() % size` pick and proves the lemmas about them.
- `engine.dfy` (module `Engine`): class `Game`. It holds the board as an
  `array2<char>` and has the routines as methods with nested loops, as in the
  source. Each method is proved against the pure definitions above. The
  ghost function `Cells()` reads the array as a board value.

`rand()` is outside the model. Each selector takes the value `rand()` returned
as a parameter `rand: nat` and uses `rand % size` as the index, as the source
does.

## Model

| member | source | states |
|---|---|---|
| `Engine.Game.constructor` | main.cpp:12-13 | The program-wide board is a 3x3 array whose cells start zero-filled, before any game. |
| `Engine.Game.InitializeBoard` | main.cpp:15-19 | After the call, every cell is `' '`. |
| `Rules.BlankIsOpen` | main.cpp:15-19 | On a cleared board a cell is still empty, no non-empty mark has a line, the evaluation is 0, and all nine cells are empty. |
| `Engine.Game.IsMovesLeft` | main.cpp:34-39 | Returns true iff some cell is `' '`. It has no modifies clause, so it changes nothing. |
| `Engine.Game.CheckWin` | main.cpp:41-51 | Returns true iff `player` holds all three cells of one of the 8 lines (3 rows, 3 columns, 2 diagonals). The eight lines are listed in `Rules.Line`. |
| `Rules.Evaluation` | main.cpp:53-58 | The score is always 10, 0 or -10. It is 10 iff O has a line. It is -10 iff X has a line and O has none, because O is tested first. It is 0 iff neither has a line. |
| `Engine.Game.Evaluate` | main.cpp:54-58 | Returns exactly `Evaluation` of the current board. |
| `Engine.Game.Minimax` | main.cpp:63-98 | The board afterwards is exactly what it was before, because every speculative mark is written back to `' '`. The returned value is `MinimaxValue(board, depth, isMax)`. |
| `Search.MinimaxCases` | main.cpp:64-97 | `10 - depth` when O has a line. `-10 + depth` when only X has one. 0 on a full board without a line. Otherwise the value is the maximum (isMax) or minimum (not isMax) over the values at depth + 1 of every empty cell, and some empty cell attains it. |
| `Search.ValueBounds` | main.cpp:63-98 | From depth d, with at most 9 - d empty cells, every value lies in [-(10-d), 10-d]. A position O has not already won is worth at most 9 - d, and one X has not already won at least -(9-d). So a sooner win scores strictly more, and the `numeric_limits` sentinels are never returned. |
| `Search.ScanIsExtremum` | main.cpp:71-96 | The running `best` of the max loop is at least every visited child value (the min loop: at most). Once an empty cell has been visited, `best` equals one child's value. Before that it is still the sentinel. |
| `Rules.PlaceShrinks` | main.cpp:75-78 | A mark placed on an empty cell removes exactly that cell from the set of empty cells. This is the measure under which the recursion terminates. |
| `Rules.Restore` | main.cpp:76-78 | Writing `' '` back to the cell that received the speculative mark gives the original board. |
| `Selection.MoveValue` | main.cpp:107-110 | The value of O playing an empty cell, searched with `minimax(0, false)`. It lies in [-10, 10] and is 10 iff the board after the move has a line of O. |
| `Engine.Game.FindBestMove` | main.cpp:101-127 | The board is unchanged afterwards. The move is `(-1,-1)` iff the board had no empty cell. Otherwise the move is an in-range empty cell whose value is maximal over all empty cells. It is exactly `bestMoves[rand % size]`. |
| `Selection.BestScanSound` | main.cpp:105-120 | Invariant of the best-move loop. Every collected move is an empty cell whose value is `bestVal`. `bestVal` is at least the value of every visited empty cell. Every visited empty cell of that value has been collected. The list is empty, and `bestVal` is the sentinel, only when no empty cell has been visited. The list is in row-major order. |
| `Selection.BestMovesAreTheMaxima` | main.cpp:101-120 | A move is in `bestMoves` iff it is an empty cell whose value is the maximum over all empty cells. The list is empty iff the board is full, and it is in row-major order. |
| `Selection.ImmediateWinIsBest` | main.cpp:101-120 | If O playing some empty cell leaves O with a line, that cell is among the best moves, and every best move leaves O with a line. |
| `Selection.BlockWorth` | main.cpp:63-110 | When neither mark has a line yet, X threatens a line at exactly one cell c, and O has no winning move, O playing c is worth at least -8, because no reply of X then completes a line. |
| `Selection.OtherWorth` | main.cpp:63-110 | In that position, O playing any other empty cell is worth at most -9, because X answers at c and wins at depth 1. |
| `Selection.BlockIsOnlyBest` | main.cpp:101-126 | In that position, the tied best-move list is exactly `[c]`, so the optimal selector blocks at c whatever `rand()` returns. |
| `Selection.ScenarioThreat` | main.cpp:41-51 | On the board with X at (1,0) and (1,1) and O at (0,0), X threatens only (1,2) and O has no winning move. |
| `Selection.BlockScenario` | main.cpp:101-126 | On that board the optimal selector returns (1,2). |
| `Selection.DoubleThreatLoses` | main.cpp:63-110 | When neither mark has a line yet, X threatens lines at two different cells, and O has no winning move, every O move is worth exactly -9, because X completes the line O left open at depth 1. |
| `Engine.Game.GetRandomMove` | main.cpp:129-138 | The move is `(-1,-1)` iff the board is full. Otherwise it is an in-range empty cell, exactly `emptyCells[rand % size]`. The board is not modified. |
| `Selection.OpenCellsExact` | main.cpp:130-134 | The `emptyCells` vector holds exactly the empty cells, each once and in row-major order. It is empty iff no cell is empty. |
| `Selection.Choose` | main.cpp:122-126 | The `rand() % size` pick. An empty list gives `(-1,-1)`, and a non-empty list gives one of its own moves. |
| `Rules.EndOfTurn` | main.cpp:231-248 | The player who just moved has won iff they hold a line; this is tested first, so a final move that both fills the board and completes a line is reported as a win. Otherwise a full board is a draw. Otherwise the game continues with the other player. |

## Left out

- `displayBoard` (main.cpp:21-32) is console output only.
- `playerMove` (main.cpp:140-163) reads and validates console input. Validation (range check and occupied-cell check) belongs to that input loop, not to the engine.
- The menu and replay loop of `main` (main.cpp:165-260) is not modelled, except the end-of-turn step, which is `Rules.EndOfTurn`.
- `srand(time(nullptr))` seeding is left out, and so is how uniform `rand() % n` is (it has a modulo bias). Only the index the pick uses is modelled.
- Engine.Game.Minimax: unbounded `int` replaces 32-bit `int`. The sentinels `numeric_limits<int>::min()/max()` are kept as the constants `IntMin`/`IntMax`. `Search.ValueBounds` shows that values stay within [-10, 10], so no 32-bit overflow can occur.
- That optimal play against optimal play from the empty board always ends in a draw is not proved. It is a fact about the whole game tree, which would have to be evaluated inside the verifier. Blocking is proved only for a single threat (`Selection.BlockIsOnlyBest`). Against two threats at different cells, when O has no winning move, every O move scores -9 (`Selection.DoubleThreatLoses`), so the tie-break may pick any empty cell.
- The rule that marks alternate and that no occupied cell is overwritten is left to callers, as in the source. The engine does not check it.
