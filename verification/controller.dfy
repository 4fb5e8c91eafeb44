/**
  The turn controller: a game is a board and the marker whose turn it is.
  The human plays X, the computer plays O. Button, label and message-box
  updates of the user interface are not modelled.
 */
module GameController {
  import opened BoardModel
  import opened MoveSelector

  datatype Option<T> = None | Some(value: T)

  datatype Game = Game(board: Board, current: Player)

  /** The effect of the computer's turn on `g`: nothing once the game is over;
      otherwise an O in the first best cell, and the turn passes to X unless
      that O ended the game. */
  predicate ComputerResponds(g: Game, g': Game)
  {
    if IsGameOver(g.board) then g' == g
    else
      && (exists m: Pos :: FirstBest(g.board, m) && g'.board == Place(g.board, m, O))
      && g'.current == (if IsWinner(g'.board, O) || IsFull(g'.board) then g.current else X)
  }

  /** The state every reachable game keeps: at most one player owns a line,
      and while the game is on it is X's (the human's) turn. */
  predicate Consistent(g: Game)
  {
    && !(IsWinner(g.board, X) && IsWinner(g.board, O))
    && (IsGameOver(g.board) || g.current == X)
  }

  /** A fresh game: nine empty cells, X to move. */
  function StartGame(): (g: Game)
    ensures forall j :: 0 <= j < 9 ==> g.board[j] == Empty
    ensures EmptyCount(g.board) == 9 && g.current == X
    ensures !IsGameOver(g.board) && Consistent(g)
  {
    var g := Game(EmptyBoard, X);
    assert !IsWinner(g.board, X) by { IsWinnerIffLine(g.board, X); }
    assert !IsWinner(g.board, O) by { IsWinnerIffLine(g.board, O); }
    g
  }

  /** The computer's turn. Every empty cell is tried in row-major order
      (cell 3*row + col), the O is taken back after scoring, and a cell
      replaces the best so far only when its score is strictly larger. */
  method ComputerMove(g: Game) returns (g': Game)
    ensures ComputerResponds(g, g')
  {
    if IsGameOver(g.board) {
      return g;
    }
    var board := g.board;
    var bestScore := NegInf;
    var bestMove: Option<Pos> := None;
    var k := 0;
    while k < 9
      invariant 0 <= k <= 9
      invariant board == g.board
      invariant bestMove.None? ==> bestScore == NegInf && forall j :: 0 <= j < k ==> board[j] != Empty
      invariant bestMove.Some? ==> FirstBestAmong(board, k, bestMove.value)
                                   && bestScore == MoveScore(board, bestMove.value, true)
    {
      if board[k] == Empty {
        board := board[k := O];
        var score := Minimax(board, false);
        board := board[k := Empty];
        if score > bestScore {
          bestScore := score;
          bestMove := Some(k);
        }
      }
      k := k + 1;
    }
    // A board that is not over has an empty cell, so the scan found a move.
    assert bestMove.Some?;
    var m := bestMove.value;
    var b' := Place(g.board, m, O);
    if IsWinner(b', O) {
      g' := Game(b', g.current);
    } else if IsFull(b') {
      g' := Game(b', g.current);
    } else {
      g' := Game(b', X);
    }
  }

  // ---------------------------------------------------------------------
  // Facts about the computer's turn.

  /** The computer's turn has exactly one possible outcome. */
  lemma ComputerRespondsDeterministic(g: Game, g1: Game, g2: Game)
    requires ComputerResponds(g, g1) && ComputerResponds(g, g2)
    ensures g1 == g2
  {
    if !IsGameOver(g.board) {
      var m1: Pos :| FirstBest(g.board, m1) && g1.board == Place(g.board, m1, O);
      var m2: Pos :| FirstBest(g.board, m2) && g2.board == Place(g.board, m2, O);
      FirstBestUnique(g.board, m1, m2);
    }
  }

  /** When the game is on, the computer writes one O into one previously
      empty cell and changes no other cell. */
  lemma ComputerPlacesOneO(g: Game, g': Game)
    requires ComputerResponds(g, g') && !IsGameOver(g.board)
    ensures exists m: Pos :: g.board[m] == Empty && g'.board[m] == O
                             && forall j :: 0 <= j < 9 && j != m ==> g'.board[j] == g.board[j]
    ensures Count(g'.board, O) == Count(g.board, O) + 1
    ensures Count(g'.board, X) == Count(g.board, X)
    ensures EmptyCount(g'.board) == EmptyCount(g.board) - 1
  {
    var m: Pos :| FirstBest(g.board, m) && g'.board == Place(g.board, m, O);
    assert g'.board[m] == O;
  }

  /** The chosen cell is worth the minimax value of the position, and if any
      move avoids losing, the computer's move leaves X no immediate win. */
  lemma ComputerPlaysSafely(g: Game, g': Game, k: Pos)
    requires ComputerResponds(g, g') && !IsGameOver(g.board)
    requires g.board[k] == Empty && MoveScore(g.board, k, true) >= 0
    ensures IsWinner(g'.board, O)
            || forall j :: 0 <= j < 9 && g'.board[j] == Empty ==> !IsWinner(Place(g'.board, j, X), X)
  {
    var m: Pos :| FirstBest(g.board, m) && g'.board == Place(g.board, m, O);
    FirstBestIsOptimal(g.board, m);
    MinimaxMaximises(g.board);
    NonLosingMoveBlocks(g.board, m);
  }

  /** The computer's turn keeps the controller's invariant, starting from any
      board on which the players do not both own a line. */
  lemma ComputerRespondsConsistent(g: Game, g': Game)
    requires ComputerResponds(g, g')
    requires !(IsWinner(g.board, X) && IsWinner(g.board, O))
    ensures Consistent(g')
  {
    if !IsGameOver(g.board) {
      var m: Pos :| FirstBest(g.board, m) && g'.board == Place(g.board, m, O);
      PlaceKeepsNonWinner(g.board, m, O, X);
    }
  }

  // ---------------------------------------------------------------------
  // A click of the human on cell (row, col).

  /** The effect of a click: nothing if the cell is taken or the game is
      over; otherwise the current marker goes into the cell, and unless that
      wins or fills the board the turn passes on and the computer plays. */
  predicate Clicked(g: Game, row: int, col: int, g': Game)
    requires 0 <= row < 3 && 0 <= col < 3
  {
    var k := Idx(row, col);
    if g.board[k] != Empty || IsGameOver(g.board) then g' == g
    else
      var b1 := Place(g.board, k, g.current);
      if IsWinner(b1, g.current) || IsFull(b1) then g' == Game(b1, g.current)
      else ComputerResponds(Game(b1, Other(g.current)), g')
  }

  method OnClick(g: Game, row: int, col: int) returns (g': Game)
    requires 0 <= row < 3 && 0 <= col < 3
    ensures Clicked(g, row, col, g')
    ensures g'.board[Idx(row, col)] != Empty || IsGameOver(g'.board)
    ensures Consistent(g) ==> Consistent(g')
  {
    var k := Idx(row, col);
    if g.board[k] == Empty && !IsGameOver(g.board) {
      var b1 := Place(g.board, k, g.current);
      if IsWinner(b1, g.current) {
        g' := Game(b1, g.current);
      } else if IsFull(b1) {
        g' := Game(b1, g.current);
      } else {
        g' := ComputerMove(Game(b1, Other(g.current)));
      }
    } else {
      g' := g;
    }
    ClickLeavesCellTaken(g, row, col, g');
    if Consistent(g) {
      ClickKeepsConsistent(g, row, col, g');
    }
  }

  /** After a click, the clicked cell is taken or the game is over. */
  lemma ClickLeavesCellTaken(g: Game, row: int, col: int, g': Game)
    requires 0 <= row < 3 && 0 <= col < 3
    requires Clicked(g, row, col, g')
    ensures g'.board[Idx(row, col)] != Empty || IsGameOver(g'.board)
  {
    var k := Idx(row, col);
    if g.board[k] == Empty && !IsGameOver(g.board) {
      var b1 := Place(g.board, k, g.current);
      if !(IsWinner(b1, g.current) || IsFull(b1)) && !IsGameOver(b1) {
        var m: Pos :| FirstBest(b1, m) && g'.board == Place(b1, m, O);
        assert g'.board[k] == b1[k];
      }
    }
  }

  /** Clicking the same cell again right after is a no-op. */
  lemma ClickTwiceIsNoOp(g: Game, row: int, col: int, g1: Game, g2: Game)
    requires 0 <= row < 3 && 0 <= col < 3
    requires Clicked(g, row, col, g1) && Clicked(g1, row, col, g2)
    ensures g2 == g1
  {
    ClickLeavesCellTaken(g, row, col, g1);
  }

  /** A click keeps the controller's invariant. */
  lemma ClickKeepsConsistent(g: Game, row: int, col: int, g': Game)
    requires 0 <= row < 3 && 0 <= col < 3
    requires Consistent(g) && Clicked(g, row, col, g')
    ensures Consistent(g')
  {
    var k := Idx(row, col);
    if g.board[k] == Empty && !IsGameOver(g.board) {
      var b1 := Place(g.board, k, g.current);
      PlaceKeepsNonWinner(g.board, k, X, O);
      if !(IsWinner(b1, g.current) || IsFull(b1)) {
        ComputerRespondsConsistent(Game(b1, Other(g.current)), g');
      }
    }
  }

  /** X has not won, and while the game is on it is X's turn in a position
      where X cannot force a win against best play (minimax value 0 or 1). */
  predicate Safe(g: Game)
  {
    && !IsWinner(g.board, X)
    && (IsGameOver(g.board) || (g.current == X && Minimax(g.board, false) >= 0))
  }

  /** Clicks alone never let X win from a safe position: the computer's
      answer keeps the minimax value at 0 or above. */
  lemma ClickKeepsSafe(g: Game, row: int, col: int, g': Game)
    requires 0 <= row < 3 && 0 <= col < 3
    requires Consistent(g) && Safe(g) && Clicked(g, row, col, g')
    ensures Safe(g')
  {
    var k := Idx(row, col);
    var b := g.board;
    if b[k] == Empty && !IsGameOver(b) {
      // X's move cannot improve on the value of the position for X.
      MinimaxMinimises(b);
      var b1 := Place(b, k, X);
      PlaceKeepsNonWinner(b, k, X, O);
      assert Minimax(b1, true) >= 0;
      if !(IsWinner(b1, X) || IsFull(b1)) {
        var m: Pos :| FirstBest(b1, m) && g'.board == Place(b1, m, O);
        FirstBestIsOptimal(b1, m);
        PlaceKeepsNonWinner(b1, m, O, X);
      }
    }
  }

  // ---------------------------------------------------------------------
  // The "AI first" button.

  /** The guard of the "AI first" button; it does not ask whether any move
      has been made yet. */
  predicate AiFirstEnabled(g: Game)
  {
    !IsGameOver(g.board) && g.current == X
  }

  method AiFirst(g: Game) returns (g': Game)
    ensures !AiFirstEnabled(g) ==> g' == g
    ensures AiFirstEnabled(g) ==> ComputerResponds(Game(g.board, O), g')
    ensures Consistent(g) ==> Consistent(g')
  {
    if !IsGameOver(g.board) && g.current == X {
      g' := ComputerMove(Game(g.board, O));
      ComputerRespondsConsistent(Game(g.board, O), g');
    } else {
      g' := g;
    }
  }

  /** "AI first" on a fresh game (an all-empty board): the computer places
      one O, nothing else is on the board, and it is X's turn. */
  lemma AiFirstOnFreshGame(b: Board, g': Game)
    requires forall j :: 0 <= j < 9 ==> b[j] == Empty
    requires ComputerResponds(Game(b, O), g')
    ensures Count(g'.board, O) == 1 && Count(g'.board, X) == 0 && EmptyCount(g'.board) == 8
    ensures !IsGameOver(g'.board) && g'.current == X
  {
    FreshBoardIsOpen(b);
    ComputerPlacesOneO(Game(b, O), g');
    var m: Pos :| b[m] == Empty && g'.board[m] == O
                  && forall j :: 0 <= j < 9 && j != m ==> g'.board[j] == b[j];
    LoneMarkIsOpen(b, g'.board, m);
  }

  lemma FreshBoardIsOpen(b: Board)
    requires forall j :: 0 <= j < 9 ==> b[j] == Empty
    ensures Count(b, O) == 0 && Count(b, X) == 0 && EmptyCount(b) == 9
    ensures !IsGameOver(b)
  {
    CountZero(b, O);
    CountZero(b, X);
    CountSum(b);
    SingleMarkNoWin(b, O, 0);
    SingleMarkNoWin(b, X, 0);
  }

  lemma LoneMarkIsOpen(b: Board, b': Board, m: Pos)
    requires forall j :: 0 <= j < 9 ==> b[j] == Empty
    requires b'[m] == O && forall j :: 0 <= j < 9 && j != m ==> b'[j] == b[j]
    ensures !IsGameOver(b')
  {
    SingleMarkNoWin(b', O, m);
    SingleMarkNoWin(b', X, m);
    assert b'[if m == 0 then 1 else 0] == Empty;
  }

  /** The guard is permissive: when the computer's answer to "AI first" does
      not end the game, the button is enabled again, so the computer can be
      made to move twice with no X move in between. */
  lemma AiFirstCanRepeat(g: Game, g': Game)
    requires AiFirstEnabled(g) && ComputerResponds(Game(g.board, O), g')
    requires !IsGameOver(g'.board)
    ensures AiFirstEnabled(g')
    ensures Count(g'.board, O) == Count(g.board, O) + 1 && Count(g'.board, X) == Count(g.board, X)
  {
    ComputerPlacesOneO(Game(g.board, O), g');
  }
}
