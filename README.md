# Tic-tac-toe minimax engine in Dafny

This project models the game logic of a browser tic-tac-toe game, where a
human plays against a computer opponent that picks its moves by exhaustive,
unpruned minimax search:

- The board is a 3x3 grid of numbers: 0 is empty, -1 is the human (HUMAN) and 1 is the computer (COMP).
- `gameOver` tests the eight winning lines for one player.
- `gameOverAll` asks whether either player has won.
- `evalute` scores a board as +1, -1 or 0.
- `emptyCells` lists the free cells in row-major order.
- `validMove` and `setMove` check a placement and write it into the shared board.
- `minimax` marks each free cell in turn, searches the reply, and unmarks the cell again.
- The computer's turn (`aiTurn`) calls the search, and the restart button clears the board.

The model has four modules, one file each:

- `rules.dfy` (module `Rules`): the rules as pure functions on a `Grid`, which is an immutable snapshot of the board (a 3x3 `seq<seq<int>>`). It covers:
  - the eight lines as `gameOver` lists them, and winning (`Wins`, `Terminal`);
  - the evaluation (`Score`);
  - the list of empty cells (`FreeCells`) and its counting lemmas;
  - placing a mark (`Place`).
- `board.dfy` (module `Board`): the board operations, as methods over the shared mutable board, an `array2<int>`.
  - Each is proved against the rules applied to `Snapshot(state)`.
  - `GameOver` and `EmptyCells` keep the game's nested counting loops.
  - `SetMove` and `Reset` write the array under `modifies`.
- `game_tree.dfy` (module `GameTree`): the search as pure functions.
  - `Search` and `Scan` follow the search step by step. The running best starts at the ±1000 sentinel and is replaced only on strict improvement.
  - `Value` is an independent reference: the maximum (COMP to move) or the minimum of the children's values, taken over the empty cells.
  - The lemmas show that the search computes `Value`, and that it picks the first optimal cell in scan order.
  - For player COMP or HUMAN and a depth no greater than the number of empty cells, the search never returns the sentinel or a score outside [-1, 1].
  - The depth bound matters. The game always searches exactly as deep as there are empty cells. A deeper search can reach a full board with depth left, where no cell is tried and the sentinel survives; `DeeperSearchPlaysNoCell` shows such a board.
- `engine.dfy` (module `Engine`): the search as a method over the shared board.
  - `Minimax` places a mark, recurses and restores the cell, inside its loop over the empty cells.
  - The loop body is `TryCell`, the callback passed to `forEach` in the game's code.
  - `Minimax` is proved to leave the board unchanged and to return exactly `Search` of the board.
  - `AiTurn` is the computer's move choice.

On a board with no empty cell, or one that already has a winner, the search returns (-1, -1), `setMove` rejects it, and the board stays as it was; `Engine.AiTurn` places a mark exactly when the board has an empty cell and nobody has a line.

Because `Engine.Minimax` returns `GameTree.Search` of its input, a function, the search is deterministic. Two calls on the same board, depth and player return the same move.

## Model

| member | source | states |
|---|---|---|
| Rules.Place | src/app/page.tsx:87 | Writing a mark changes exactly the one cell, to the mark, and keeps every other cell |
| Rules.WinState | src/app/page.tsx:32-41 | `gameOver` lists eight lines of three cells each |
| Rules.WinStateIsEveryLine | src/app/page.tsx:32-41 | The eight lines listed by `gameOver` are exactly the three rows, three columns and two diagonals: a player owns one of the listed lines iff they own a row, a column or a diagonal |
| Rules.Score | src/app/page.tsx:16-28 | The evaluation is +1 iff COMP has a line, -1 iff HUMAN has a line and COMP has none (COMP is checked first), 0 iff nobody has a line; always in [-1, 1] |
| Rules.AllCellsFacts | src/app/page.tsx:61-62 | The row-major scan visits nine cells, exactly the in-range ones, the i-th having row-major position i |
| Rules.FreeMembers | src/app/page.tsx:63 | Keeping the cells that hold 0 keeps exactly the scanned cells that are empty |
| Rules.FreeIncreasing | src/app/page.tsx:61-63 | Keeping the cells that hold 0 preserves the scan order |
| Rules.FreeCount | src/app/page.tsx:63 | At most as many cells are kept as are scanned, and all of them iff every scanned cell is empty |
| Rules.FreeAfterPlace | src/app/page.tsx:111 | In a strictly increasing scan, marking an empty cell with a non-zero mark lowers the number of kept cells by one when the cell is scanned, and leaves it unchanged when it is not |
| Rules.FreeMembersAfterPlace | src/app/page.tsx:111 | Marking an empty cell removes exactly that cell from the kept cells and keeps every other one |
| Rules.FreePrefixStep | src/app/page.tsx:61-64 | One more step of the row-major scan appends the cell (x, y) iff it holds 0 |
| Rules.FreeRowStep | src/app/page.tsx:61-64 | Scanning one more row appends its empty cells, from column 0 to column 2 |
| Rules.FreeAmongAll | src/app/page.tsx:59-68 | The full scan of all nine cells yields the list of empty cells |
| Rules.FreeCells | src/app/page.tsx:59-68 | A cell is in the list iff it is in [0,2]x[0,2] and empty; the list is strictly increasing in row-major order and has no duplicates |
| Rules.FreeCellsUnrolled | src/app/page.tsx:59-68 | The list of empty cells is the nine per-cell contributions (the cell if it holds 0, else nothing) in row-major order |
| Rules.FreeCountFull | src/app/page.tsx:194 | There are at most nine empty cells, and exactly nine iff the board is the cleared board |
| Rules.FreeCountAfterPlace | src/app/page.tsx:111-112 | Marking an empty cell leaves exactly one empty cell fewer, so the depth passed down keeps step with the empty cells |
| Rules.EmptyBoardIsOpen | src/app/page.tsx:6-10 | The initial board has nine empty cells and no winner |
| Board.GameOver | src/app/page.tsx:31-52 | The loop over the eight lines, counting cells equal to player, returns true iff the player owns a row, a column or a diagonal of the board |
| Board.GameOverAll | src/app/page.tsx:55-57 | True iff either player has a line |
| Board.Evaluate | src/app/page.tsx:16-28 | Returns the evaluation of the current board (COMP's line first, then HUMAN's, else 0) |
| Board.EmptyCells | src/app/page.tsx:59-68 | The nested x/y loop returns exactly the list of empty cells of the board, in row-major order |
| Board.ValidMove | src/app/page.tsx:71-82 | A move is valid iff (x, y) is a cell of the board and that cell is empty; out-of-range coordinates are invalid rather than an error |
| Board.SetMove | src/app/page.tsx:85-92 | Returns whether the move was valid on the old board; if so the board is the old board with exactly cell (x, y) set to player, otherwise the board is unchanged |
| Board.Reset | src/app/page.tsx:218-220 | After the clearing loop every cell is 0 |
| GameTree.Sentinel | src/app/page.tsx:97-101 | The starting best score (-1000 for COMP, +1000 otherwise) is beaten by every score in [-1, 1] |
| GameTree.Better | src/app/page.tsx:117-121 | The improvement test is strict: a better score always differs from the best so far |
| GameTree.Search | src/app/page.tsx:94-125 | The returned score is within the sentinel bounds [-1000, 1000] |
| GameTree.Scan | src/app/page.tsx:108-122 | The running best after some of the cells has a score within [-1000, 1000] |
| GameTree.Optimum | src/app/page.tsx:117-121 | The optimum of the child values is one of them (when there are any) and no child is strictly better for the player to move |
| GameTree.Value | src/app/page.tsx:94-125 | The reference minimax value lies within [-1000, 1000] |
| GameTree.ChildValues | src/app/page.tsx:108-113 | One child value per tried empty cell, each within [-1000, 1000] |
| GameTree.ChildValue | src/app/page.tsx:108-112 | Child i is the value of the board with the i-th empty cell marked by the player, searched one level shallower with the other player to move |
| GameTree.OptimumSnoc | src/app/page.tsx:117-121 | Adding one child moves the optimum to that child exactly when it is strictly better, which is the update rule of the running best |
| GameTree.SearchScoreIsValue | src/app/page.tsx:94-125 | The score the search returns equals the minimax value of the position |
| GameTree.ScanIsOptimum | src/app/page.tsx:108-122 | After the first n cells, the running best's score is the optimum of the first n child values |
| GameTree.FirstOptimalSnoc | src/app/page.tsx:117-121 | Under a strict running best, a new child takes over the first optimal position only when it is strictly better |
| GameTree.ScanPicksFirstOptimal | src/app/page.tsx:108-122 | When every child beats the sentinel, the running best is the child at the first index in scan order whose value is optimal (all earlier children strictly worse, none better), with that value as score |
| GameTree.ValueInUnitRange | src/app/page.tsx:97-122 | Searching no deeper than the number of empty cells gives a value in [-1, 1], and every child value is in [-1, 1], so the sentinel never survives |
| GameTree.SearchPlaysFirstOptimal | src/app/page.tsx:97-124 | For a player in {COMP, HUMAN}, an open board and 0 < depth <= empty cells: the search returns an in-range empty cell (never (-1, -1)), its score is the minimax value and lies in [-1, 1], and the cell is the first in row-major order whose child value is optimal |
| GameTree.DeeperSearchPlaysNoCell | src/app/page.tsx:198 | On an open board with two empty cells, a COMP search three levels deep (deeper than the game ever asks) returns (-1, -1) with the sentinel -1000 |
| Engine.Minimax | src/app/page.tsx:94-125 | After the call the board equals the board before it, and the returned move is the pure search of the board (in particular (-1, -1, evaluation) at depth 0 or on a won board) |
| Engine.TryCell | src/app/page.tsx:108-122 | Marking a cell, searching, and unmarking it leaves the board unchanged and replaces the best move by the child's score at this cell iff that score is strictly better |
| Engine.AiTurn | src/app/page.tsx:194-203 | On a clear board the given opening cell is played. Otherwise the coordinates are those of a search as deep as the number of empty cells, as COMP, and they are the first optimal empty cell. A mark is placed iff the board has an empty cell and no winner; the new board is the old one with that cell set to COMP |

## Left out

- The React component state, the re-rendering copies of the board, the DOM highlighting of winning cells, the button labels, the game-start flag and the JSX rendering are presentation and are not modelled.
- The turn orchestration of the click handler and of the restart button is not modelled, except the board-clearing loop (`Board.Reset`).
- `Math.random` in the opening move is not modelled: `Engine.AiTurn` takes the opening cell as parameters in [0, 2], which is the range `Math.floor(Math.random() * 3)` produces.
- `console.log` in `validMove` is output only. Its `try`/`catch` (a lookup of a row that does not exist) is modelled as an explicit bounds check that makes the move invalid.
- Coordinates are integers in the model. A JavaScript caller could pass a fractional coordinate, which `validMove` rejects through an undefined lookup; this case is not modelled.
- The search overwrites the coordinates of each child's result array in place (`score[0] = x`). Each recursive call returns a fresh array, so the model treats the result as a value (`Move`) with those two fields updated. No aliasing between results is modelled.
- The claim that the computer never loses under full self-play from the empty board is not proved, because it needs the whole game tree evaluated. A concrete end-to-end position (the human holding (0,0) and (0,1) with five cells empty) is not evaluated either, for the same reason.
