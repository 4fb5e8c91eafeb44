# Tic-tac-toe game logic in Dafny

This project models the game logic of the `TicTacToe` class in
`tictactoe2.py`: a 3x3 tic-tac-toe board, an unbeatable computer opponent
that picks its move by exhaustive minimax, and the small turn controller
behind the "Start Game" and "AI First" buttons and the nine cell buttons.
The human always plays X and the computer always plays O.

The model is functional. A board is an immutable sequence of nine cells in
row-major order (cell `(row, col)` is at index `3*row + col`, which is also the
order of the nested `for i … for j …` scans). A game is a record of
the board and the marker whose turn it is.

- `board.dfy`, module `BoardModel`: cells, players, boards, placing a marker,
  and `is_winner`, `is_board_full` and `is_game_over`. `IsWinner` follows the
  three scans of `is_winner` (rows, columns, then a loop whose every pass tests
  both diagonals). It is proved equal to a reference definition that lists
  the eight winning lines outright (`WinLine`, `HasLine`).
- `search.dfy`, module `MoveSelector`: `minimax` as a recursive function
  (`Minimax`), with its two scanning loops as folds (`MaxFrom`, `MinFrom`).
  Recursion ends because every step fills one empty cell. The termination
  measure is the empty-cell count. `FirstBest` states the computer's choice
  rule: the first empty cell in row-major order whose score is maximal.
- `controller.dfy`, module `GameController`: `computer_move` (`ComputerMove`,
  a method whose loop places an O, scores it, and takes it back), `on_click`
  (`OnClick`), `ai_first` (`AiFirst`) and `start_game` (`StartGame`).
  The predicates `ComputerResponds` and `Clicked` describe the effect of a
  computer turn and of a click, so that lemmas can compose them. `Consistent`
  is the invariant every reachable game keeps: at most one player owns a line,
  and while the game is on it is X's turn.

Modelling decisions:

- The `float("-inf")` and `float("inf")` starting values of the max and min
  loops become the integers `NegInf = -2` and `PosInf = 2`. Real scores are
  only -1, 0 and 1, so any real score beats them, just as the float infinities do in Python.
- `minimax` takes a `board` parameter but calls `is_winner` and
  `is_board_full`, which read `self.board`. Its only caller passes
  `self.board` (tictactoe2.py:67), so the model uses one board value.
- The `depth` parameter of `minimax` is never read, so it is dropped. There
  is no depth discount.
- Place-and-undo: `Minimax` works on values, so it cannot change its input.
  `ComputerMove` keeps the explicit place/score/undo sequence. Its
  loop invariant `board == g.board` proves the scan leaves the board as it
  found it.
- `computer_move` tests `if best_move:` before placing. The model proves this
  test always passes once the game is not over, because such a board has an
  empty cell. So that branch becomes an assertion, not a dead branch.

Behaviour of the controller that the model keeps as the code has it:

- A click on a taken cell, or any click after the game is over, is ignored.
  No error is raised (`ClickTwiceIsNoOp`).
- The "AI First" guard only asks that the game is not over and that X is to
  move. It does not ask whether a move has been made yet. So the button can
  be used mid-game, and repeatedly, and the computer then moves twice in a
  row (`AiFirstCanRepeat`).
- X and O counts can differ by more than one: each use of "AI First" gives O
  an extra mark (`AiFirstCanRepeat`). The controller invariant `Consistent`
  therefore says nothing about the counts.

## Model

| member | source | states |
|---|---|---|
| BoardModel.IsWinner | tictactoe2.py:113-129 | `is_winner(p)`: the row scan, the column scan, then the diagonal loop, each returning as soon as a line is entirely `p`; its meaning is stated by `IsWinnerIffLine` |
| BoardModel.IsFull | tictactoe2.py:131-132 | `is_board_full`: no cell holds `" "`; `FullIffNoEmpty` relates it to the empty-cell count |
| BoardModel.IsGameOver | tictactoe2.py:134-135 | `is_game_over`: X has won, O has won, or the board is full; `GameOverIff` states it against the eight lines |
| BoardModel.IsWinnerIffLine | tictactoe2.py:113-129 | `is_winner(p)` holds exactly when one of the eight lines (three rows, three columns, two diagonals) is entirely `p` |
| BoardModel.WinnerHasLine | tictactoe2.py:114-127 | each `True` return of the three scans is backed by a line that `p` owns entirely |
| BoardModel.LineMakesWinner | tictactoe2.py:113-127 | if `p` owns any of the eight lines, one of the three scans returns `True` |
| BoardModel.FullIffNoEmpty | tictactoe2.py:131-132 | the board is full exactly when the number of empty cells is zero |
| BoardModel.GameOverIff | tictactoe2.py:134-135 | the game is over exactly when X owns a line, O owns a line, or no cell is empty |
| BoardModel.DiagonalPassOnce | tictactoe2.py:122-127 | the diagonal loop gives the same answer as testing the main and anti-diagonal once each, because its index is shadowed |
| BoardModel.Place | tictactoe2.py:96-98 | writing a marker into an empty cell leaves one empty cell fewer and one more mark of that player; the other player's count is unchanged |
| BoardModel.PlaceThenUndo | tictactoe2.py:96-99 | writing `" "` back into the cell just filled restores the board exactly |
| BoardModel.PlaceKeepsNonWinner | tictactoe2.py:113-129 | placing one player's marker never makes the other player a winner |
| BoardModel.SingleMarkNoWin | tictactoe2.py:113-129 | a player with at most one mark on the board does not win |
| MoveSelector.Minimax | tictactoe2.py:84-111 | every position scores -1, 0 or 1, and never a sentinel |
| MoveSelector.MaxFrom | tictactoe2.py:93-101 | the maximising loop never lowers its running best and never exceeds 1; if an empty cell remains to be tried, it ends at -1 or above |
| MoveSelector.MinFrom | tictactoe2.py:103-111 | the minimising loop never raises its running best and never drops below -1; if an empty cell remains to be tried, it ends at 1 or below |
| MoveSelector.MoveScore | tictactoe2.py:96-98 | scoring one candidate move gives -1, 0 or 1 |
| MoveSelector.MaxFromIsMaximum | tictactoe2.py:94-101 | the maximising loop's result is at least the score of every empty cell it tries, and is either its starting value or the score of one of those cells |
| MoveSelector.MinFromIsMinimum | tictactoe2.py:104-111 | the minimising loop's result is at most the score of every empty cell it tries, and is either its starting value or the score of one of those cells |
| MoveSelector.MinimaxMaximises | tictactoe2.py:92-101 | on a position that is not over, O's value is the maximum over empty cells of the score after O plays there, and some cell attains it |
| MoveSelector.MinimaxMinimises | tictactoe2.py:102-111 | on a position that is not over, X's value is the minimum over empty cells of the score after X plays there, and some cell attains it |
| MoveSelector.MinimaxTerminalScores | tictactoe2.py:84-90 | an O line scores 1 even when X also owns a line; otherwise an X line scores -1; a full board with no line scores 0; whose turn it is does not matter |
| MoveSelector.FirstBestAmong | tictactoe2.py:63-71 | the scan's best move after cells 0..n-1: an empty cell among them with the largest score, every empty cell before it scoring strictly less |
| MoveSelector.FirstBest | tictactoe2.py:63-71 | the computer's choice after the whole scan: the first empty cell in row-major order with the largest score |
| MoveSelector.FirstBestUnique | tictactoe2.py:69-71 | the strict `>` tie-break picks at most one cell: the first maximum in row-major order |
| MoveSelector.FirstBestIsOptimal | tictactoe2.py:63-71 | the chosen cell's score equals the minimax value of the position for O |
| MoveSelector.ComputerSeesImmediateWin | tictactoe2.py:63-71 | if O can complete a line in one move, the chosen move scores 1 |
| MoveSelector.NonLosingMoveBlocks | tictactoe2.py:84-111 | after a move scoring 0 or 1, either O has won or no single X placement completes an X line |
| GameController.ComputerResponds | tictactoe2.py:58-82 | the effect of `computer_move`: nothing once the game is over; otherwise an O in the first best cell, and the turn goes to X unless that O won or filled the board |
| GameController.Consistent | tictactoe2.py:45-82 | the state every game reached by the buttons keeps: not both players own a line, and while the game is on it is X's turn |
| GameController.Clicked | tictactoe2.py:45-56 | the effect of `on_click`: nothing on a taken cell or a finished game; otherwise the current marker goes in, and unless it wins or fills the board the turn flips and the computer answers |
| GameController.AiFirstEnabled | tictactoe2.py:22 | the guard of `ai_first`: the game is not over and X is to move |
| GameController.StartGame | tictactoe2.py:26-28 | a new game has nine empty cells and X to move; it is not over and satisfies the controller invariant |
| GameController.ComputerMove | tictactoe2.py:58-82 | a finished game is unchanged; otherwise an O goes into the first maximum-scoring empty cell (row-major, strict `>`), and the turn passes to X unless that O won or filled the board |
| GameController.ComputerRespondsDeterministic | tictactoe2.py:58-82 | the computer's turn has exactly one outcome |
| GameController.ComputerPlacesOneO | tictactoe2.py:73-75 | while the game is on, the computer writes O into exactly one previously empty cell and changes no other cell |
| GameController.ComputerPlaysSafely | tictactoe2.py:63-75 | if some move avoids a loss, then after the computer's move either O has won or X has no immediate winning move |
| GameController.ComputerRespondsConsistent | tictactoe2.py:77-82 | from a board where the players do not both own a line, the computer's turn yields a consistent game: not both winners, and X to move unless the game is over |
| GameController.OnClick | tictactoe2.py:45-56 | a click on a taken cell or a finished game changes nothing; otherwise the current marker goes into the cell, and unless it wins or fills the board the turn flips and the computer answers; afterwards the cell is taken or the game is over; the controller invariant is kept |
| GameController.ClickLeavesCellTaken | tictactoe2.py:45-47 | after any click, the clicked cell holds a marker or the game is over |
| GameController.ClickTwiceIsNoOp | tictactoe2.py:45-46 | clicking the same cell a second time changes nothing |
| GameController.ClickKeepsConsistent | tictactoe2.py:45-56 | from a consistent game, a click leads to a consistent game |
| GameController.ClickKeepsSafe | tictactoe2.py:45-82 | from a position where X has not won and, with X to move, the minimax value is 0 or 1, any click leads again to such a position: the computer's answer attains the value, so X cannot win by clicks alone |
| GameController.AiFirst | tictactoe2.py:21-24 | the button does nothing once the game is over or when O is to move; otherwise the computer plays one turn as O; the controller invariant is kept |
| GameController.AiFirstOnFreshGame | tictactoe2.py:21-24 | on an all-empty board the computer places one O and nothing else; the game is not over and X is to move |
| GameController.FreshBoardIsOpen | tictactoe2.py:27 | an all-empty board has no marks, nine empty cells, and is not over |
| GameController.AiFirstCanRepeat | tictactoe2.py:21-24 | if the computer's "AI First" move does not end the game, the button is enabled again; O gained one mark and X none |

## Left out

- All tkinter work: the window, buttons, labels, message boxes,
  `disable_buttons`, the `clear_*` helpers and `mainloop`. The model keeps
  only the board and turn effects of `show_winner` and `show_draw`, which
  change nothing.
- Lines 32-33 of `start_game` (`if current_player == "O": computer_move()`).
  They can never run, because `current_player` is set to `"X"` on the line
  before.
- Board sizes other than 3, and the unused `random` import.
- Clicks outside the grid: `OnClick` requires `0 <= row < 3` and
  `0 <= col < 3`, which are the only coordinates the cell buttons pass.
- GameController.ComputerPlaysSafely: the lemma promises only that the
  computer's move leaves X no immediate win. That the computer never loses a
  whole game is proved as an invariant of clicks (`ClickKeepsSafe`), starting
  from any position whose minimax value is 0 or 1. It is not proved for the
  empty board, because that needs the value of the starting position, which
  means evaluating minimax over the whole game tree. It is also not proved
  across "AI First": an extra O never hurts O, but showing so needs a
  strategy-stealing argument that the model does not make.
- Concrete opening positions, such as the cell the computer picks for
  "AI First" on an empty board, are not computed. Deciding them means
  evaluating minimax over the whole remaining game tree, which is beyond what
  the verifier unfolds.
