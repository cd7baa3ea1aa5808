/** The tic-tac-toe board of the portfolio's minigame: nine cells, the eight
    fixed winning lines, and the line scan that finds a winner. */
module Board {

  datatype Option<T> = None | Some(value: T)

  /** The two marks: X is the human player, O the AI. */
  datatype Player = X | O

  /** A cell holds the empty string (Empty) or one of the two marks. */
  datatype Cell = Empty | Mark(player: Player)

  type CellIndex = i: int | 0 <= i < 9

  /** A board is always exactly nine cells, indexed row by row. */
  type Board = b: seq<Cell> | |b| == 9
    witness [Empty, Empty, Empty, Empty, Empty, Empty, Empty, Empty, Empty]

  const EmptyBoard: Board := [Empty, Empty, Empty, Empty, Empty, Empty, Empty, Empty, Empty]

  /** The eight lines in scan order: rows, then columns, then diagonals. */
  const Lines: seq<(CellIndex, CellIndex, CellIndex)> :=
    [(0, 1, 2), (3, 4, 5), (6, 7, 8),
     (0, 3, 6), (1, 4, 7), (2, 5, 8),
     (0, 4, 8), (2, 4, 6)]

  /** Line k is complete: its three cells are equal and not empty. */
  predicate LineComplete(b: Board, k: nat)
    requires k < |Lines|
  {
    var (a, c, d) := Lines[k];
    b[a] != Empty && b[a] == b[c] && b[a] == b[d]
  }

  /** Line j is the first complete line at or after line k. */
  predicate FirstCompleteFrom(b: Board, k: nat, j: int)
  {
    k <= j < |Lines| && LineComplete(b, j) &&
    forall i :: k <= i < j ==> !LineComplete(b, i)
  }

  /** The scan of lines k, k+1, ... for a complete line. */
  function WinnerFrom(b: Board, k: nat): Option<Player>
    requires k <= |Lines|
    decreases |Lines| - k
  {
    if k == |Lines| then None
    else if LineComplete(b, k) then Some(b[Lines[k].0].player)
    else WinnerFrom(b, k + 1)
  }

  /** The winner check, scanning all lines in order. */
  function Winner(b: Board): Option<Player>
  {
    WinnerFrom(b, 0)
  }

  /** The scan from line k finds nothing exactly when no line from k on is
      complete, and otherwise returns the mark on the first complete one. */
  lemma {:induction false} WinnerFromIsFirstComplete(b: Board, k: nat)
    requires k <= |Lines|
    ensures WinnerFrom(b, k).None? <==> forall j :: k <= j < |Lines| ==> !LineComplete(b, j)
    ensures WinnerFrom(b, k).Some? ==>
      exists j :: FirstCompleteFrom(b, k, j) && b[Lines[j].0] == Mark(WinnerFrom(b, k).value)
    decreases |Lines| - k
  {
    if k < |Lines| {
      if LineComplete(b, k) {
        assert WinnerFrom(b, k) == Some(b[Lines[k].0].player);
        assert FirstCompleteFrom(b, k, k);
      } else {
        assert WinnerFrom(b, k) == WinnerFrom(b, k + 1);
        WinnerFromIsFirstComplete(b, k + 1);
        if WinnerFrom(b, k).Some? {
          var j :| FirstCompleteFrom(b, k + 1, j) && b[Lines[j].0] == Mark(WinnerFrom(b, k).value);
          assert FirstCompleteFrom(b, k, j);
        }
      }
    }
  }

  /** The winner is the mark on the first complete line, in row, column,
      diagonal order; there is none exactly when no line is complete. */
  lemma WinnerIsFirstComplete(b: Board)
    ensures Winner(b).None? <==> forall j :: 0 <= j < |Lines| ==> !LineComplete(b, j)
    ensures Winner(b).Some? ==>
      exists j :: FirstCompleteFrom(b, 0, j) && b[Lines[j].0] == Mark(Winner(b).value)
  {
    WinnerFromIsFirstComplete(b, 0);
  }

  /** Every cell is non-empty. */
  predicate Full(b: Board)
  {
    forall i :: 0 <= i < 9 ==> b[i] != Empty
  }

  /** The board with cell i overwritten by the mark of p. */
  function Place(b: Board, i: CellIndex, p: Player): (r: Board)
    ensures r[i] == Mark(p)
    ensures forall j :: 0 <= j < 9 && j != i ==> r[j] == b[j]
  {
    b[i := Mark(p)]
  }

  /** The number of cells holding c. */
  function Count(b: Board, c: Cell): nat
  {
    multiset(b)[c]
  }

  /** Filling an empty cell adds one to the count of the mark, takes one from
      the count of empty cells, and leaves the other counts alone. */
  lemma PlaceCounts(b: Board, i: CellIndex, p: Player)
    requires b[i] == Empty
    ensures Count(Place(b, i, p), Empty) == Count(b, Empty) - 1
    ensures Count(Place(b, i, p), Mark(p)) == Count(b, Mark(p)) + 1
    ensures forall q :: q != p ==> Count(Place(b, i, p), Mark(q)) == Count(b, Mark(q))
  {
    assert b[i] in multiset(b);
  }

  lemma EmptyBoardHasNoWinner()
    ensures Winner(EmptyBoard).None? && !Full(EmptyBoard)
  {
    assert EmptyBoard[0] == Empty;
  }

  /** The board as created holds nine empty cells and no mark. */
  lemma EmptyBoardCounts()
    ensures Count(EmptyBoard, Empty) == 9
    ensures Count(EmptyBoard, Mark(X)) == 0 && Count(EmptyBoard, Mark(O)) == 0
  {
    assert multiset(EmptyBoard) == multiset{Empty, Empty, Empty, Empty, Empty, Empty, Empty, Empty, Empty};
  }
}
