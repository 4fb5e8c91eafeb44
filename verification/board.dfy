/**
  The board model of the tic-tac-toe game: a 3x3 grid of cells, stored
  row-major as a sequence of nine cells (cell (row, col) is at 3*row + col),
  together with the win, full-board and game-over predicates.
 */
module BoardModel {

  /** A cell holds nothing (" " in tictactoe2.py), an X or an O. */
  datatype Cell = Empty | X | O

  /** A player marker is a cell value other than Empty: tictactoe2.py keeps the
      current player as the very string it writes into a cell. */
  type Player = c: Cell | c != Empty witness X

  /** A position on the board, 0..8, in row-major order. */
  type Pos = k: int | 0 <= k < 9

  type Board = b: seq<Cell> | |b| == 9
    witness [Empty, Empty, Empty, Empty, Empty, Empty, Empty, Empty, Empty]

  const EmptyBoard: Board := [Empty, Empty, Empty, Empty, Empty, Empty, Empty, Empty, Empty]

  function Idx(row: int, col: int): (k: Pos)
    requires 0 <= row < 3 && 0 <= col < 3
  {
    3 * row + col
  }

  /** The marker the turn passes to after `p`. */
  function Other(p: Player): (q: Player)
    ensures q != p
  {
    if p == X then O else X
  }

  /** Number of occurrences of `c` in `s`. */
  function Count(s: seq<Cell>, c: Cell): (n: nat)
    ensures n <= |s|
  {
    if |s| == 0 then 0 else (if s[0] == c then 1 else 0) + Count(s[1..], c)
  }

  /** Number of empty cells: the moves still open. */
  function EmptyCount(b: Board): (n: nat)
    ensures n <= 9
  {
    Count(b, Empty)
  }

  lemma {:induction false} CountUpdate(s: seq<Cell>, k: nat, c: Cell, d: Cell)
    requires k < |s|
    ensures Count(s[k := c], d)
            == Count(s, d) - (if s[k] == d then 1 else 0) + (if c == d then 1 else 0)
  {
    if k == 0 {
      assert s[k := c][1..] == s[1..];
    } else {
      CountUpdate(s[1..], k - 1, c, d);
      assert s[k := c][1..] == s[1..][k - 1 := c];
    }
  }

  lemma {:induction false} CountZero(s: seq<Cell>, c: Cell)
    ensures Count(s, c) == 0 <==> forall k :: 0 <= k < |s| ==> s[k] != c
  {
    if |s| > 0 {
      CountZero(s[1..], c);
      if Count(s, c) == 0 {
        forall k | 0 <= k < |s| ensures s[k] != c {
          if k > 0 { assert s[k] == s[1..][k - 1]; }
        }
      } else if s[0] != c {
        var j :| 0 <= j < |s[1..]| && s[1..][j] == c;
        assert s[j + 1] == c;
      }
    }
  }

  /** Every cell is empty, an X or an O. */
  lemma {:induction false} CountSum(s: seq<Cell>)
    ensures Count(s, Empty) + Count(s, X) + Count(s, O) == |s|
  {
    if |s| > 0 {
      CountSum(s[1..]);
    }
  }

  /** Writes marker `p` into the empty cell `k`; one empty cell fewer remains. */
  function Place(b: Board, k: Pos, p: Player): (b': Board)
    requires b[k] == Empty
    ensures EmptyCount(b') == EmptyCount(b) - 1
    ensures Count(b', p) == Count(b, p) + 1
    ensures Count(b', Other(p)) == Count(b, Other(p))
  {
    CountUpdate(b, k, p, Empty);
    CountUpdate(b, k, p, p);
    CountUpdate(b, k, p, Other(p));
    b[k := p]
  }

  /** Undoing a placement by writing Empty back restores the board. */
  lemma PlaceThenUndo(b: Board, k: Pos, p: Player)
    requires b[k] == Empty
    ensures Place(b, k, p)[k := Empty] == b
  {
  }

  // ---------------------------------------------------------------------
  // The win test, following the three scans of `is_winner`: every row, then
  // every column, then a loop over i that tests both diagonals on each pass.

  predicate RowFull(b: Board, p: Player, row: int)
    requires 0 <= row < 3
  {
    b[Idx(row, 0)] == p && b[Idx(row, 1)] == p && b[Idx(row, 2)] == p
  }

  predicate ColumnFull(b: Board, p: Player, col: int)
    requires 0 <= col < 3
  {
    b[Idx(0, col)] == p && b[Idx(1, col)] == p && b[Idx(2, col)] == p
  }

  predicate MainDiagonalFull(b: Board, p: Player)
  {
    b[Idx(0, 0)] == p && b[Idx(1, 1)] == p && b[Idx(2, 2)] == p
  }

  /** Cells (i, 2 - i): tictactoe2.py's `board_size - 1 - i`. */
  predicate AntiDiagonalFull(b: Board, p: Player)
  {
    b[Idx(0, 2)] == p && b[Idx(1, 1)] == p && b[Idx(2, 0)] == p
  }

  predicate SomeRowFrom(b: Board, p: Player, row: int)
    requires 0 <= row <= 3
    decreases 3 - row
  {
    row < 3 && (RowFull(b, p, row) || SomeRowFrom(b, p, row + 1))
  }

  predicate SomeColumnFrom(b: Board, p: Player, col: int)
    requires 0 <= col <= 3
    decreases 3 - col
  {
    col < 3 && (ColumnFull(b, p, col) || SomeColumnFrom(b, p, col + 1))
  }

  /** The diagonal loop: its index is shadowed by the inner generators, so
      each pass tests the same two diagonals. */
  predicate DiagonalPassFrom(b: Board, p: Player, i: int)
    requires 0 <= i <= 3
    decreases 3 - i
  {
    i < 3 && (MainDiagonalFull(b, p) || AntiDiagonalFull(b, p) || DiagonalPassFrom(b, p, i + 1))
  }

  /** `is_winner`: the row scan, the column scan, then the diagonal loop. */
  predicate IsWinner(b: Board, p: Player)
  {
    SomeRowFrom(b, p, 0) || SomeColumnFrom(b, p, 0) || DiagonalPassFrom(b, p, 0)
  }

  /** `is_board_full`: no cell holds " ". */
  predicate IsFull(b: Board)
  {
    forall k :: 0 <= k < 9 ==> b[k] != Empty
  }

  /** `is_game_over`: someone has won or the board is full. */
  predicate IsGameOver(b: Board)
  {
    IsWinner(b, X) || IsWinner(b, O) || IsFull(b)
  }

  // ---------------------------------------------------------------------
  // Reference definitions: the eight winning lines listed outright.

  datatype Line = Line(p0: Pos, p1: Pos, p2: Pos)

  /** The eight winning lines: three rows, three columns, two diagonals. */
  function WinLine(i: int): (l: Line)
    requires 0 <= i < 8
  {
    if i == 0 then Line(0, 1, 2)
    else if i == 1 then Line(3, 4, 5)
    else if i == 2 then Line(6, 7, 8)
    else if i == 3 then Line(0, 3, 6)
    else if i == 4 then Line(1, 4, 7)
    else if i == 5 then Line(2, 5, 8)
    else if i == 6 then Line(0, 4, 8)
    else Line(2, 4, 6)
  }

  predicate Owns(b: Board, p: Player, l: Line)
  {
    b[l.p0] == p && b[l.p1] == p && b[l.p2] == p
  }

  predicate HasLine(b: Board, p: Player)
  {
    exists i :: 0 <= i < 8 && Owns(b, p, WinLine(i))
  }

  /** Running the diagonal loop is the same as testing each diagonal once. */
  lemma DiagonalPassOnce(b: Board, p: Player)
    ensures DiagonalPassFrom(b, p, 0) <==> MainDiagonalFull(b, p) || AntiDiagonalFull(b, p)
  {
    assert !DiagonalPassFrom(b, p, 3);
    assert DiagonalPassFrom(b, p, 2) <==> MainDiagonalFull(b, p) || AntiDiagonalFull(b, p);
    assert DiagonalPassFrom(b, p, 1) <==> MainDiagonalFull(b, p) || AntiDiagonalFull(b, p);
  }

  lemma RowScan(b: Board, p: Player)
    ensures SomeRowFrom(b, p, 0) <==> RowFull(b, p, 0) || RowFull(b, p, 1) || RowFull(b, p, 2)
  {
    assert !SomeRowFrom(b, p, 3);
    assert SomeRowFrom(b, p, 2) <==> RowFull(b, p, 2);
    assert SomeRowFrom(b, p, 1) <==> RowFull(b, p, 1) || RowFull(b, p, 2);
  }

  lemma ColumnScan(b: Board, p: Player)
    ensures SomeColumnFrom(b, p, 0) <==> ColumnFull(b, p, 0) || ColumnFull(b, p, 1) || ColumnFull(b, p, 2)
  {
    assert !SomeColumnFrom(b, p, 3);
    assert SomeColumnFrom(b, p, 2) <==> ColumnFull(b, p, 2);
    assert SomeColumnFrom(b, p, 1) <==> ColumnFull(b, p, 1) || ColumnFull(b, p, 2);
  }

  lemma WinnerHasLine(b: Board, p: Player)
    requires IsWinner(b, p)
    ensures HasLine(b, p)
  {
    var i;
    if SomeRowFrom(b, p, 0) {
      RowScan(b, p);
      i := if RowFull(b, p, 0) then 0 else if RowFull(b, p, 1) then 1 else 2;
    } else if SomeColumnFrom(b, p, 0) {
      ColumnScan(b, p);
      i := if ColumnFull(b, p, 0) then 3 else if ColumnFull(b, p, 1) then 4 else 5;
    } else {
      DiagonalPassOnce(b, p);
      i := if MainDiagonalFull(b, p) then 6 else 7;
    }
    OwnedLineIsLine(b, p, i);
  }

  lemma OwnedLineIsLine(b: Board, p: Player, i: int)
    requires 0 <= i < 8 && Owns(b, p, WinLine(i))
    ensures HasLine(b, p)
  {
  }

  lemma LineMakesWinner(b: Board, p: Player, i: int)
    requires 0 <= i < 8 && Owns(b, p, WinLine(i))
    ensures IsWinner(b, p)
  {
    if i < 3 {
      RowScan(b, p);
      assert RowFull(b, p, i);
    } else if i < 6 {
      ColumnScan(b, p);
      assert ColumnFull(b, p, i - 3);
    } else {
      DiagonalPassOnce(b, p);
      assert MainDiagonalFull(b, p) || AntiDiagonalFull(b, p);
    }
  }

  /** A player wins exactly when one of the eight lines is entirely theirs. */
  lemma IsWinnerIffLine(b: Board, p: Player)
    ensures IsWinner(b, p) <==> HasLine(b, p)
  {
    if IsWinner(b, p) {
      WinnerHasLine(b, p);
    }
    if HasLine(b, p) {
      var i :| 0 <= i < 8 && Owns(b, p, WinLine(i));
      LineMakesWinner(b, p, i);
    }
  }

  /** The board is full exactly when no empty cell is left. */
  lemma FullIffNoEmpty(b: Board)
    ensures IsFull(b) <==> EmptyCount(b) == 0
  {
    CountZero(b, Empty);
  }

  /** The game is over exactly when some player owns a line or no cell is empty. */
  lemma GameOverIff(b: Board)
    ensures IsGameOver(b) <==> HasLine(b, X) || HasLine(b, O) || EmptyCount(b) == 0
  {
    IsWinnerIffLine(b, X);
    IsWinnerIffLine(b, O);
    FullIffNoEmpty(b);
  }

  /** Placing a marker cannot make the other player a winner. */
  lemma PlaceKeepsNonWinner(b: Board, k: Pos, p: Player, q: Player)
    requires b[k] == Empty && q != p
    requires !IsWinner(b, q)
    ensures !IsWinner(Place(b, k, p), q)
  {
    var b' := Place(b, k, p);
    IsWinnerIffLine(b, q);
    IsWinnerIffLine(b', q);
  }

  /** A player with at most one mark on the board (at cell `m`) owns no line. */
  lemma SingleMarkNoWin(b: Board, p: Player, m: Pos)
    requires forall j :: 0 <= j < 9 && j != m ==> b[j] != p
    ensures !IsWinner(b, p)
  {
    IsWinnerIffLine(b, p);
  }


}
