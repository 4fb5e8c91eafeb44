/**
  The move selector: exhaustive minimax over the remaining game tree, scored
  from O's point of view (+1 an O win, -1 an X win, 0 a draw), with no
  pruning and no depth discount.
 */
module MoveSelector {
  import opened BoardModel

  /** Stand-ins for the float("-inf") and float("inf") starting values of the
      max and min loops: every real score lies strictly between them. */
  const NegInf := -2
  const PosInf := 2

  function Max(x: int, y: int): (m: int)
    ensures m >= x && m >= y && (m == x || m == y)
  {
    if x >= y then x else y
  }

  function Min(x: int, y: int): (m: int)
    ensures m <= x && m <= y && (m == x || m == y)
  {
    if x <= y then x else y
  }

  /** The minimax value of `b` with O to move when `maximizing`, X otherwise.
      The terminal tests come first and in this order: O wins, X wins, full. */
  function Minimax(b: Board, maximizing: bool): (score: int)
    decreases EmptyCount(b), 1, 0
    ensures -1 <= score <= 1
  {
    if IsWinner(b, O) then 1
    else if IsWinner(b, X) then -1
    else if IsFull(b) then 0
    else if maximizing then MaxFrom(b, 0, NegInf)
    else MinFrom(b, 0, PosInf)
  }

  /** The maximising loop from cell `k` on: each empty cell is tried with an
      O, scored with X to move, and folded into `best`. */
  function MaxFrom(b: Board, k: nat, best: int): (r: int)
    requires k <= 9
    requires NegInf <= best <= 1
    decreases EmptyCount(b), 0, 9 - k
    ensures best <= r <= 1
    ensures (exists j :: k <= j < 9 && b[j] == Empty) ==> -1 <= r
  {
    if k == 9 then best
    else if b[k] == Empty then MaxFrom(b, k + 1, Max(Minimax(Place(b, k, O), false), best))
    else MaxFrom(b, k + 1, best)
  }

  /** The minimising loop from cell `k` on: each empty cell is tried with an
      X, scored with O to move, and folded into `best`. */
  function MinFrom(b: Board, k: nat, best: int): (r: int)
    requires k <= 9
    requires -1 <= best <= PosInf
    decreases EmptyCount(b), 0, 9 - k
    ensures -1 <= r <= best
    ensures (exists j :: k <= j < 9 && b[j] == Empty) ==> r <= 1
  {
    if k == 9 then best
    else if b[k] == Empty then MinFrom(b, k + 1, Min(Minimax(Place(b, k, X), true), best))
    else MinFrom(b, k + 1, best)
  }

  /** The board after the player to move (O when `maximizing`) takes cell `k`. */
  function Child(b: Board, k: Pos, maximizing: bool): (c: Board)
    requires b[k] == Empty
    ensures c[k] != Empty && EmptyCount(c) == EmptyCount(b) - 1
    ensures forall j :: 0 <= j < 9 && j != k ==> c[j] == b[j]
  {
    Place(b, k, if maximizing then O else X)
  }

  /** The score of taking cell `k`: the minimax value of the child position
      with the other player to move. */
  function MoveScore(b: Board, k: Pos, maximizing: bool): (score: int)
    requires b[k] == Empty
    ensures -1 <= score <= 1
  {
    Minimax(Child(b, k, maximizing), !maximizing)
  }

  lemma {:induction false} MaxFromIsMaximum(b: Board, k: nat, best: int)
    requires k <= 9
    requires NegInf <= best <= 1
    ensures forall j :: k <= j < 9 && b[j] == Empty ==> MoveScore(b, j, true) <= MaxFrom(b, k, best)
    ensures MaxFrom(b, k, best) == best
            || exists j :: k <= j < 9 && b[j] == Empty && MoveScore(b, j, true) == MaxFrom(b, k, best)
    decreases 9 - k
  {
    if k < 9 {
      if b[k] == Empty {
        MaxFromIsMaximum(b, k + 1, Max(MoveScore(b, k, true), best));
      } else {
        MaxFromIsMaximum(b, k + 1, best);
      }
    }
  }

  lemma {:induction false} MinFromIsMinimum(b: Board, k: nat, best: int)
    requires k <= 9
    requires -1 <= best <= PosInf
    ensures forall j :: k <= j < 9 && b[j] == Empty ==> MinFrom(b, k, best) <= MoveScore(b, j, false)
    ensures MinFrom(b, k, best) == best
            || exists j :: k <= j < 9 && b[j] == Empty && MoveScore(b, j, false) == MinFrom(b, k, best)
    decreases 9 - k
  {
    if k < 9 {
      if b[k] == Empty {
        MinFromIsMinimum(b, k + 1, Min(MoveScore(b, k, false), best));
      } else {
        MinFromIsMinimum(b, k + 1, best);
      }
    }
  }

  /** On a position that is not over, O's value is the largest score among
      O's moves, and some move attains it. */
  lemma MinimaxMaximises(b: Board)
    requires !IsGameOver(b)
    ensures forall j :: 0 <= j < 9 && b[j] == Empty ==> MoveScore(b, j, true) <= Minimax(b, true)
    ensures exists j :: 0 <= j < 9 && b[j] == Empty && MoveScore(b, j, true) == Minimax(b, true)
  {
    MaxFromIsMaximum(b, 0, NegInf);
  }

  /** On a position that is not over, X's value is the smallest score among
      X's moves, and some move attains it. */
  lemma MinimaxMinimises(b: Board)
    requires !IsGameOver(b)
    ensures forall j :: 0 <= j < 9 && b[j] == Empty ==> Minimax(b, false) <= MoveScore(b, j, false)
    ensures exists j :: 0 <= j < 9 && b[j] == Empty && MoveScore(b, j, false) == Minimax(b, false)
  {
    MinFromIsMinimum(b, 0, PosInf);
  }

  /** Terminal positions, stated against the eight lines: an O line scores 1
      even if X also owns a line; otherwise an X line scores -1; a board with
      no empty cell and no line scores 0. Whose turn it is does not matter. */
  lemma MinimaxTerminalScores(b: Board, maximizing: bool)
    ensures HasLine(b, O) ==> Minimax(b, maximizing) == 1
    ensures !HasLine(b, O) && HasLine(b, X) ==> Minimax(b, maximizing) == -1
    ensures !HasLine(b, O) && !HasLine(b, X) && EmptyCount(b) == 0 ==> Minimax(b, maximizing) == 0
  {
    IsWinnerIffLine(b, O);
    IsWinnerIffLine(b, X);
    FullIffNoEmpty(b);
  }

  // ---------------------------------------------------------------------
  // The computer's choice: the first cell, in row-major order, whose score
  // is the largest (the scan compares with a strict >).

  /** Cell `m` is the first maximum-scoring empty cell among cells 0..n-1. */
  predicate FirstBestAmong(b: Board, n: int, m: int)
    requires 0 <= n <= 9
  {
    && 0 <= m < n
    && b[m] == Empty
    && (forall j {:trigger MoveScore(b, j, true)} :: 0 <= j < n && b[j] == Empty ==> MoveScore(b, j, true) <= MoveScore(b, m, true))
    && (forall j {:trigger MoveScore(b, j, true)} :: 0 <= j < m && b[j] == Empty ==> MoveScore(b, j, true) < MoveScore(b, m, true))
  }

  predicate FirstBest(b: Board, m: int)
  {
    FirstBestAmong(b, 9, m)
  }

  /** At most one cell is the first best one. */
  lemma FirstBestUnique(b: Board, m1: int, m2: int)
    requires FirstBest(b, m1) && FirstBest(b, m2)
    ensures m1 == m2
  {
    // Each is at least as good as the other, so the one further along
    // cannot be strictly better than the earlier one.
    assert MoveScore(b, m1, true) == MoveScore(b, m2, true);
  }

  /** The chosen cell's score is the minimax value of the position. */
  lemma FirstBestIsOptimal(b: Board, m: int)
    requires !IsGameOver(b) && FirstBest(b, m)
    ensures MoveScore(b, m, true) == Minimax(b, true)
  {
    MinimaxMaximises(b);
  }

  /** If O can complete a line in one move, the chosen move scores 1. */
  lemma ComputerSeesImmediateWin(b: Board, m: int, k: Pos)
    requires FirstBest(b, m)
    requires b[k] == Empty && HasLine(Place(b, k, O), O)
    ensures MoveScore(b, m, true) == 1
  {
    MinimaxTerminalScores(Child(b, k, true), false);
    assert MoveScore(b, k, true) <= MoveScore(b, m, true);
  }

  /** A move that does not lose leaves X no immediate win: either O has just
      won, or no single X placement completes an X line. */
  lemma NonLosingMoveBlocks(b: Board, m: Pos)
    requires b[m] == Empty && MoveScore(b, m, true) >= 0
    ensures var b' := Place(b, m, O);
            IsWinner(b', O) || forall j :: 0 <= j < 9 && b'[j] == Empty ==> !IsWinner(Place(b', j, X), X)
  {
    var b' := Place(b, m, O);
    if !IsWinner(b', O) && !IsFull(b') {
      assert !IsWinner(b', X);
      MinimaxMinimises(b');
      forall j | 0 <= j < 9 && b'[j] == Empty
        ensures !IsWinner(Place(b', j, X), X)
      {
        PlaceKeepsNonWinner(b', j, X, O);
      }
    }
  }
}
