/** The AI opponent's exhaustive game-tree search: the minimax value of a
    board, the move the AI picks, and the in-place search that computes the
    value by placing and undoing marks on the shared board. */
module Search {
  import opened Board

  /** JavaScript's -Infinity and Infinity, the initial best scores of the
      search. Every score is in [-1, 1], so any value outside that range
      compares the same way. */
  const NegInf: int := -2
  const PosInf: int := 2

  function Max(a: int, b: int): int { if a >= b then a else b }
  function Min(a: int, b: int): int { if a <= b then a else b }

  /** The best score before any child is seen. */
  function Initial(maximizing: bool): int
  {
    if maximizing then NegInf else PosInf
  }

  /** Math.max(score, best) on the maximizing side, Math.min on the other. */
  function Update(maximizing: bool, score: int, best: int): int
  {
    if maximizing then Max(score, best) else Min(score, best)
  }

  /** The best scores the loop can hold: a real score or the initial one. */
  predicate Running(maximizing: bool, best: int)
  {
    if maximizing then NegInf <= best <= 1 else -1 <= best <= PosInf
  }

  /** best is at least as good as score for the side to move. */
  predicate AtLeast(maximizing: bool, best: int, score: int)
  {
    if maximizing then score <= best else best <= score
  }

  /** The maximizing side is O (the AI), the minimizing side is X. */
  function Mover(maximizing: bool): Player
  {
    if maximizing then O else X
  }

  /** The minimax value of b when O moves next (maximizing) or X does:
      1 when O holds a line, -1 when X does, 0 when the board is full,
      otherwise the best value among the boards one move later. */
  function MinimaxValue(b: Board, maximizing: bool): (r: int)
    ensures -1 <= r <= 1
    decreases Count(b, Empty), 1
  {
    match Winner(b)
    case Some(O) => 1
    case Some(X) => -1
    case None =>
      if Full(b) then 0
      else Best(b, maximizing, 0, Initial(maximizing))
  }

  /** The loop over cells i..8 of one level of the search: acc is the best
      score so far, updated with the value of each child. */
  function Best(b: Board, maximizing: bool, i: nat, acc: int): (r: int)
    requires i <= 9
    requires Running(maximizing, acc)
    ensures (exists j :: i <= j < 9 && b[j] == Empty) ==> -1 <= r <= 1
    ensures (forall j :: i <= j < 9 ==> b[j] != Empty) ==> r == acc
    decreases Count(b, Empty), 0, 9 - i
  {
    if i == 9 then acc
    else if b[i] == Empty then
      PlaceCounts(b, i, Mover(maximizing));
      var s := MinimaxValue(Place(b, i, Mover(maximizing)), !maximizing);
      Best(b, maximizing, i + 1, Update(maximizing, s, acc))
    else
      Best(b, maximizing, i + 1, acc)
  }

  /** One iteration of the fold: an empty cell updates the best score with
      its child's value, a taken cell is skipped. */
  lemma BestStep(b: Board, maximizing: bool, i: nat, acc: int)
    requires i < 9
    requires Running(maximizing, acc)
    ensures b[i] == Empty ==>
      Best(b, maximizing, i, acc) == Best(b, maximizing, i + 1, Update(maximizing, ChildValue(b, i, maximizing), acc))
    ensures b[i] != Empty ==> Best(b, maximizing, i, acc) == Best(b, maximizing, i + 1, acc)
  {
  }

  /** The value of a board that is not over is the fold over all cells. */
  lemma MinimaxUnfold(b: Board, maximizing: bool)
    requires Winner(b).None? && !Full(b)
    ensures MinimaxValue(b, maximizing) == Best(b, maximizing, 0, Initial(maximizing))
  {
  }

  /** The value of the board after the side to move plays cell j. */
  function ChildValue(b: Board, j: CellIndex, maximizing: bool): int
  {
    MinimaxValue(Place(b, j, Mover(maximizing)), !maximizing)
  }

  /** The values of the terminal boards. */
  lemma TerminalScores(b: Board, maximizing: bool)
    ensures Winner(b) == Some(O) ==> MinimaxValue(b, maximizing) == 1
    ensures Winner(b) == Some(X) ==> MinimaxValue(b, maximizing) == -1
    ensures Winner(b).None? && Full(b) ==> MinimaxValue(b, maximizing) == 0
  {
  }

  /** The fold over cells i..8 computes the maximum (or minimum) of acc and
      of the values of the empty cells' children. */
  lemma {:induction false} BestBounds(b: Board, maximizing: bool, i: nat, acc: int)
    requires i <= 9
    requires Running(maximizing, acc)
    ensures AtLeast(maximizing, Best(b, maximizing, i, acc), acc)
    ensures forall j :: i <= j < 9 && b[j] == Empty ==>
      AtLeast(maximizing, Best(b, maximizing, i, acc), ChildValue(b, j, maximizing))
    decreases 9 - i
  {
    if i < 9 {
      var r := Best(b, maximizing, i, acc);
      BestStep(b, maximizing, i, acc);
      if b[i] == Empty {
        var c := ChildValue(b, i, maximizing);
        var next := Update(maximizing, c, acc);
        BestBounds(b, maximizing, i + 1, next);
        assert r == Best(b, maximizing, i + 1, next);
      } else {
        BestBounds(b, maximizing, i + 1, acc);
      }
    }
  }

  /** The extremum is acc or the value of one of the empty cells' children. */
  lemma {:induction false} BestAttained(b: Board, maximizing: bool, i: nat, acc: int)
    requires i <= 9
    requires Running(maximizing, acc)
    ensures Best(b, maximizing, i, acc) == acc ||
      exists j :: i <= j < 9 && b[j] == Empty &&
        ChildValue(b, j, maximizing) == Best(b, maximizing, i, acc)
    decreases 9 - i
  {
    if i < 9 {
      var r := Best(b, maximizing, i, acc);
      BestStep(b, maximizing, i, acc);
      if b[i] == Empty {
        var c := ChildValue(b, i, maximizing);
        var next := Update(maximizing, c, acc);
        BestAttained(b, maximizing, i + 1, next);
        assert r == Best(b, maximizing, i + 1, next);
      } else {
        BestAttained(b, maximizing, i + 1, acc);
      }
    }
  }

  /** On a board that is not over, the minimax value is the maximum over the
      empty cells of the children's values when O moves, the minimum when X
      moves: no child beats it and some child reaches it. */
  lemma MinimaxOfChildren(b: Board, maximizing: bool)
    requires Winner(b).None? && !Full(b)
    ensures forall j :: 0 <= j < 9 && b[j] == Empty ==>
      AtLeast(maximizing, MinimaxValue(b, maximizing), ChildValue(b, j, maximizing))
    ensures exists j ::
      0 <= j < 9 && b[j] == Empty && ChildValue(b, j, maximizing) == MinimaxValue(b, maximizing)
  {
    MinimaxUnfold(b, maximizing);
    BestBounds(b, maximizing, 0, Initial(maximizing));
    BestAttained(b, maximizing, 0, Initial(maximizing));
  }

  /** The state of the AI's move loop after cells 0..i-1: move is -1 and
      score -Infinity while no empty cell was seen, otherwise move is the
      first empty cell whose trial value is strictly greatest so far. */
  predicate BestSoFar(b: Board, i: nat, score: int, move: int)
  {
    i <= 9 &&
    ((move == -1 && score == NegInf && forall j :: 0 <= j < i ==> b[j] != Empty) ||
     (0 <= move < i && b[move] == Empty && score == ChildValue(b, move, true) &&
      (forall j :: 0 <= j < move && b[j] == Empty ==> ChildValue(b, j, true) < score) &&
      (forall j :: move < j < i && b[j] == Empty ==> ChildValue(b, j, true) <= score)))
  }

  /** The rest of the AI's move loop, from cell i on. */
  function BestMoveFrom(b: Board, i: nat, score: int, move: int): (m: int)
    requires BestSoFar(b, i, score, move)
    ensures m == -1 ==> BestSoFar(b, 9, NegInf, m)
    ensures m != -1 ==> 0 <= m < 9 && BestSoFar(b, 9, ChildValue(b, m, true), m)
    decreases 9 - i
  {
    if i == 9 then move
    else if b[i] == Empty && ChildValue(b, i, true) > score then
      BestMoveFrom(b, i + 1, ChildValue(b, i, true), i)
    else
      BestMoveFrom(b, i + 1, score, move)
  }

  /** The AI's move: -1 exactly when no cell is empty, otherwise the lowest
      empty cell whose trial value (O placed there, X to move) is strictly
      greatest. */
  function BestMove(b: Board): (m: int)
    ensures m == -1 <==> Full(b)
    ensures m != -1 ==>
      0 <= m < 9 && b[m] == Empty &&
      (forall j :: 0 <= j < m && b[j] == Empty ==> ChildValue(b, j, true) < ChildValue(b, m, true)) &&
      (forall j :: m < j < 9 && b[j] == Empty ==> ChildValue(b, j, true) <= ChildValue(b, m, true))
  {
    BestMoveFrom(b, 0, NegInf, -1)
  }

  /** On a board that is not over, the AI's move reaches the board's minimax
      value: the AI plays optimally. */
  lemma BestMoveIsOptimal(b: Board)
    requires Winner(b).None? && !Full(b)
    ensures BestMove(b) != -1
    ensures ChildValue(b, BestMove(b), true) == MinimaxValue(b, true)
  {
    MinimaxOfChildren(b, true);
  }

  /** One trial of the search: the side to move's mark is written into the
      empty cell i, the board is searched with the other side to move, and
      the cell is reset to empty. */
  method Probe(board: array<Cell>, maximizing: bool, i: CellIndex) returns (score: int)
    requires board.Length == 9 && board[i] == Empty
    modifies board
    ensures board[..] == old(board[..])
    ensures score == ChildValue(old(board[..]), i, maximizing)
    decreases Count(board[..], Empty), 0
  {
    ghost var b0: Board := board[..];
    var p := Mover(maximizing);
    board[i] := Mark(p);
    PlaceCounts(b0, i, p);
    assert board[..] == Place(b0, i, p);
    score := Minimax(board, !maximizing);
    board[i] := Empty;
    assert board[..] == b0;
  }

  /** The recursive search on the shared board: each trial mark is written
      into the array, searched and reset to empty before the next one. */
  method Minimax(board: array<Cell>, maximizing: bool) returns (score: int)
    requires board.Length == 9
    modifies board
    ensures board[..] == old(board[..])
    ensures score == MinimaxValue(old(board[..]), maximizing)
    decreases Count(board[..], Empty), 1
  {
    ghost var b0: Board := board[..];
    TerminalScores(b0, maximizing);
    var winner := Winner(board[..]);
    if winner == Some(O) { return 1; }
    if winner == Some(X) { return -1; }
    assert winner.Some? ==> winner.value == O || winner.value == X;
    if Full(board[..]) { return 0; }
    score := Initial(maximizing);
    for i := 0 to 9
      invariant board[..] == b0
      invariant Running(maximizing, score)
      invariant Best(b0, maximizing, i, score) == Best(b0, maximizing, 0, Initial(maximizing))
    {
      BestStep(b0, maximizing, i, score);
      if board[i] == Empty {
        var s := Probe(board, maximizing, i);
        score := Update(maximizing, s, score);
      }
    }
    MinimaxUnfold(b0, maximizing);
  }
}
