# Tic-tac-toe computer player: a verified model of its game-tree search

The repository ships two near-identical C programs: `tictactoe.c`, with an
exhaustive minimax, and `tictactoe_forwardChecking.c`, whose minimax and
move choice first play an immediate win or an immediate block.

This project models the engine both programs share:
- the nine-cell board and its read-only scans `whoWon`, `isFilled` and `inlinePos`;
- the recursive `minimax`, which places pieces speculatively into the shared
  board, prunes with its swapped alpha/beta bounds, and takes every placement back;
- `makeComputerMove`, which scores the empty cells in order with `minimax`,
  stopping at the first -1, and commits the first cell of lowest score; the
  forward-checking program first commits an immediate win or block.

The model is written in Dafny 4.11 in five modules:

- `Board` (`board.dfy`):
  - cells `X | O | Empty` (the programs' `'x'`, `'o'`, `'-'`) and the eight lines in the programs' scan order;
  - `NewBoard` as a method filling a fresh `array<Cell>`;
  - `whoWon`, `isFilled` and `inlinePos` as functions over the nine cells, each with a contract or lemma saying exactly what it answers;
  - `EmptyCount`, the number of empty cells, which is the termination measure of the search.
- `Search` (`search.dfy`):
  - `Minimax`, `Scan`, `ChooseMove` and `MoveScan`, ghost functions of the board's contents that follow the C control flow branch for branch: reflexive moves, leaf tests, the scan loop with its bound updates, and the break conditions;
  - one flag, `forwardChecking`, selects the program.
- `Engine` (`engine.dfy`): the programs as they run. Class `Engine` holds the global `nodes_expanded` counter. Its methods:
  - `Minimax`;
  - `Backtrack`, the scan loop of `minimax`;
  - `Speculate`, one place / recurse / undo;
  - `MakeComputerMove`;
  - `BestMove`, the scan loop of `makeComputerMove`.

  They work in place on an `array<Cell>`. Each is proved against the `Search` functions, and each proves that the board comes back unchanged except for the committed move.
- `Analysis` (`analysis.dfy`): what the search promises, stated over traces of its scans:
  - the cells examined are the empty cells in increasing order, none skipped;
  - the value is the running maximum or minimum of the children;
  - no child but the last trips the stop test, and the scan ends either at the last empty cell or at that child;
  - `makeComputerMove` commits the first cell of lowest score, or the forward-checking win or block.
- `Scenarios` (`scenarios.dfy`): concrete boards on which the scan orders and the shortcuts show.

The C comments call the first loop of `whoWon` and of `inlinePos` the
"rows" check. The
code, however, tests the columns `(i, i+3, i+6)` first, then the rows, then
the principal diagonal and the other diagonal, and the model follows the
code. For `whoWon` the order cannot change the answer, since any two
complete lines that are not parallel share a cell
(`Scenarios.WhoWonOrderFree`). For `inlinePos` it can
(`Scenarios.InlinePosColumnsFirst`).

Modelling choices:
- `isMaximizer` is a `bool`; the C `1 - isMaximizer` becomes `!isMaximizer`.
- The two pieces are distinct and neither is `Empty`, as every call site in the programs guarantees (`Board.Pieces`).
- Board cells hold one of the three values only.
- The counter is an unbounded `nat`. The model proves only that every `minimax` call adds one node, and which calls expand no children.

## Model

| member | source | states |
|---|---|---|
| Board.Opponent | tictactoe.c:8 | getOpponentPiece gives a piece, never `Empty`, and never the piece it was given |
| Board.NewBoard | tictactoe.c:16-23 | a fresh array of exactly nine cells, all empty (newBoard is identical in tictactoe_forwardChecking.c) |
| Board.WhoWonFirstLine | tictactoe.c:60-88 | whoWon is `Empty` exactly when no line holds three equal pieces; otherwise it is the piece of the first complete line in the order columns, rows, principal diagonal, other diagonal (whoWon is identical in tictactoe_forwardChecking.c) |
| Board.WinnerFromLine | tictactoe.c:64-85 | the line at which the scan of whoWon stops: every line before it is incomplete, and it is complete and gives the answer, or there is none and the answer is `Empty` |
| Board.IsFilled | tictactoe.c:90-97 | isFilled is true exactly when no cell is empty (isFilled is identical in tictactoe_forwardChecking.c) |
| Board.InlinePos | tictactoe_forwardChecking.c:93-145 | inlinePos answers -1 or an index of an empty cell |
| Board.LineGap | tictactoe_forwardChecking.c:97-107 | the three tests on one line: -1 exactly when the line does not hold `piece` twice beside an empty cell, otherwise that empty cell; columns test the middle gap first, rows and diagonals the end gap |
| Board.InlinePosFirstLine | tictactoe_forwardChecking.c:93-145 | inlinePos is -1 exactly when no line holds `piece` twice beside an empty cell; otherwise it is the empty cell of the first such line, in the order columns, rows, principal diagonal, other diagonal |
| Board.InlineFromLine | tictactoe_forwardChecking.c:97-142 | the line at which the scan of inlinePos stops: no earlier line offers `piece` a win, and that line's gap is the answer, or there is none and the answer is -1 |
| Board.FillDecreases | tictactoe.c:159-166 | a speculative placement into an empty cell leaves one empty cell fewer, which bounds the recursion |
| Search.Minimax | tictactoe_forwardChecking.c:186-296 | the value of minimax, both programs, pruning included: always -1, 0 or 1 |
| Search.ReflexiveWin | tictactoe_forwardChecking.c:192-218 | the maximizer with a completing cell for playerPiece scores 1 without search; the minimizer with a completing cell for computerPiece scores -1 |
| Search.ReflexiveBlock | tictactoe_forwardChecking.c:196-226 | without a win but with a completing cell for the opponent, the value of the side to move (maximizer or minimizer) is that of the one continuation with the block played |
| Search.NoReflexiveMove | tictactoe_forwardChecking.c:229-244 | with no reflexive move, and always in the exhaustive program, minimax is the leaf tests followed by the scan |
| Search.Evaluate | tictactoe.c:133-148 | the leaf tests followed by the scan yield -1, 0 or 1 |
| Search.Scan | tictactoe.c:150-199 | the scan loop's answer is -1, 0 or 1, or the untouched start value when no empty cell is left from the current index on |
| Search.MoveValue | tictactoe.c:211-214 | the score of a cell: minimax with the computer's piece there, the player to move, bounds 2 and -2; always -1, 0 or 1 |
| Search.ChooseMove | tictactoe_forwardChecking.c:298-341 | the committed cell is -1 exactly on a full board, and otherwise an empty cell |
| Search.MoveScan | tictactoe.c:210-226 | the scan keeps -1 exactly when it started with no move and no empty cell lies ahead; otherwise it answers an empty cell |
| Engine.Engine.constructor | tictactoe.c:238 | the counter starts at zero |
| Engine.Engine.Minimax | tictactoe_forwardChecking.c:186-296 | minimax (with `forwardChecking` false, the exhaustive one of tictactoe.c lines 129-200) leaves the board exactly as it found it, returns the `Search.Minimax` value, adds at least one node, and adds exactly one precisely at a leaf (`Search.Leaf`): the reflexive win; otherwise, when no reflexive move applies (always in the exhaustive program), a won or full board |
| Engine.Engine.Backtrack | tictactoe.c:150-199 | the scan loop restores every speculative cell, returns the `Search.Scan` value, and expands a child whenever the board has an empty cell |
| Engine.Engine.Speculate | tictactoe.c:159-168 | place a piece in an empty cell, recurse, and reset the cell to empty: the board is unchanged and the value is minimax of the board with the piece placed (also the reflexive block's place, recurse and undo in tictactoe_forwardChecking.c) |
| Engine.Engine.MakeComputerMove | tictactoe_forwardChecking.c:298-341 | the board afterwards equals the old board with computerPiece in the `Search.ChooseMove` cell, the reflexive win or block committed without a scan, so the node counter is unchanged; with `forwardChecking` false (tictactoe.c lines 202-232) only the scan runs; on a full board it is unchanged |
| Engine.Engine.BestMove | tictactoe.c:203-226 | the scan loop restores the board and answers the `Search.MoveScan` cell |
| Analysis.BestBounds | tictactoe.c:170-175 | the running maximum (minimum) is its start value or one of the scores, and no score is better |
| Analysis.ScanTrace | tictactoe.c:158-199 | the scan examines the empty cells in increasing order with none skipped; each child is searched with the bounds of the moment; the answer is the running best; no child but the last trips the stop test, and the scan ends at the last empty cell or at the child that stopped it |
| Analysis.MaxTraceAt | tictactoe.c:170-181 | the maximizer's scan at an empty cell: its child's value stops the scan or heads the trace of the rest |
| Analysis.MinTraceAt | tictactoe.c:183-193 | the minimizer's scan at an empty cell: the same |
| Analysis.MinimaxSearch | tictactoe.c:150-199 | off the leaf tests the examined children are a non-empty prefix of the empty cells, and the value is one of theirs: the maximum for the maximizer, the minimum for the minimizer |
| Analysis.MinimaxLeaf | tictactoe.c:133-148 | a win for playerPiece scores 1, for computerPiece -1, and a full board without a winner 0 |
| Analysis.MoveScanTrace | tictactoe.c:210-226 | the move scan examines the empty cells in increasing order up to the first -1 and answers the first cell of lowest score, or keeps its start move when nothing beats it |
| Analysis.MoveScanTraceAt | tictactoe.c:211-224 | the move scan at an empty cell: its score ends the scan at -1 or heads the trace of the rest |
| Analysis.ChooseMoveScan | tictactoe.c:207-231 | on a board with an empty cell, and with no reflexive move in the forward-checking program, the committed cell is the first scored cell of lowest score, and the scan stopped at the first -1 |
| Analysis.ChooseMoveWins | tictactoe_forwardChecking.c:306-317 | with a completing cell for computerPiece, the committed cell is that one and it completes a line of computerPiece |
| Analysis.ChooseMoveBlocks | tictactoe_forwardChecking.c:309-317 | with no win but a completing cell for the player, the committed cell is the one that would complete the player's line |
| Analysis.FillCompletes | tictactoe_forwardChecking.c:93-145 | filling the cell inlinePos names completes the line |
| Scenarios.InlinePosColumnsFirst | tictactoe_forwardChecking.c:96-120 | with one threat in a column and one in a row, inlinePos answers the column's gap |
| Scenarios.WhoWonOrderFree | tictactoe.c:60-88 | whoWon answers the same as a scan of the eight lines that tests the rows before the columns, on every board |
| Scenarios.WhoWonTopRow | tictactoe.c:63-75 | a top row of one piece wins whatever the other cells hold |
| Scenarios.ChooseMoveBlocksRow | tictactoe_forwardChecking.c:308-317 | on `xx- -o- ---` the computer `o` blocks at cell 2 |
| Scenarios.ChooseMoveWinsRow | tictactoe_forwardChecking.c:308-317 | on `oo- xx- x--` the computer `o` wins at cell 2 rather than block |
| Scenarios.ShortcutBeforeLeaf | tictactoe_forwardChecking.c:191-244 | the reflexive win runs before the leaf tests: on a board `o` has already won, a maximizer `x` with a completing cell scores 1, while the exhaustive program scores -1 |

## Left out

- `printBoard`, `readBoard`, `askUser`, `makePlayerMove` and `main`'s game and replay loop: terminal I/O and interaction. The core only assumes that a human move goes to an empty cell.
- `malloc` and the never-freed board: the board is a Dafny `new Cell[9]`.
- Characters other than `'x'`, `'o'` and `'-'` in a cell: they can enter only through `readBoard`, which is not modelled.
- Whole-game claims:
  - that the computer never loses;
  - that both programs' `minimax` agree on every reachable board;
  - that `minimax` computes the exact game-theoretic value.
  The code promises none of them, and the bound updates at tictactoe.c:172-175 and tictactoe.c:184-187 overwrite an inherited bound. The model states the value the code computes instead.
- Engine.Engine.Minimax: the exact number of nodes `minimax` counts is not stated. The model states only that every call adds at least one node, and exactly one at a leaf.
- Evaluating the exhaustive search from a concrete board with many empty cells: unfolding the full tree is beyond what the verifier evaluates. The concrete scenarios are therefore boards decided by the reflexive moves or by the leaf tests.

## Findings

None. No discrepancy between the code and its evident intent was found in the modelled core.
