/** The game engine: the game state record, a move with its win / tie
    detection and score update, the handler of a click on a cell (the human's
    move followed by the AI's reply), and the two resets. */
module Engine {
  import opened Board
  import opened Search

  /** The value of the game state record: the board, the game-over flag and
      the two score counters (the human's and the AI's). */
  datatype Game = Game(board: Board, gameOver: bool, playerScore: nat, aiScore: nat)

  /** The record as the page creates it. */
  const NewGame: Game := Game(EmptyBoard, false, 0, 0)

  /** What an ended game is reported as: a win of one side, or a tie. */
  datatype Outcome = Won(winner: Player) | Tie

  /** A move: p's mark is written into cell index; a complete line ends the
      game and scores a point for its owner, a full board ends it as a tie,
      and otherwise the game-over flag is left as it was. */
  function Play(g: Game, index: CellIndex, p: Player): Game
  {
    var b := Place(g.board, index, p);
    match Winner(b)
    case Some(w) =>
      Game(b, true,
           g.playerScore + (if w == X then 1 else 0),
           g.aiScore + (if w == O then 1 else 0))
    case None =>
      if Full(b) then Game(b, true, g.playerScore, g.aiScore)
      else g.(board := b)
  }

  /** The click handler's guard: the index names no cell (the script reads
      `undefined` there, which is not `''`), the cell is taken, or the game
      is over. */
  predicate Ignored(g: Game, cellIndex: int)
  {
    cellIndex < 0 || cellIndex >= 9 || g.board[cellIndex] != Empty || g.gameOver
  }

  /** A click on the cell with index cellIndex. It is ignored when the index
      names no cell, the cell is taken or the game is over. Otherwise X is
      placed, and unless that ended the game the AI replies with its best
      move, when it has one. No check of whose turn it is is made. */
  function Click(g: Game, cellIndex: int): Game
  {
    if Ignored(g, cellIndex) then g
    else
      var afterHuman := Play(g, cellIndex, X);
      if afterHuman.gameOver then afterHuman
      else
        var aiMove := BestMove(afterHuman.board);
        if aiMove != -1 then Play(afterHuman, aiMove, O) else afterHuman
  }

  /** The clicks of one session, in order. */
  function Session(g: Game, clicks: seq<int>): Game
    decreases |clicks|
  {
    if clicks == [] then g else Session(Click(g, clicks[0]), clicks[1..])
  }

  /** The game-over flag is set exactly when the board holds a complete line
      or is full. */
  predicate Consistent(g: Game)
  {
    g.gameOver <==> (Winner(g.board).Some? || Full(g.board))
  }

  /** Marks alternate, X first: X has as many marks as O or one more, and
      exactly as many while the game goes on. */
  predicate Alternating(g: Game)
  {
    var xs, os := Count(g.board, Mark(X)), Count(g.board, Mark(O));
    os <= xs <= os + 1 && (!g.gameOver ==> xs == os)
  }

  /** The game is consistent and, while it goes on, the human (to move) cannot
      force a win: the minimax value of the board with X to move is not -1. */
  predicate Safe(g: Game)
  {
    Consistent(g) && (!g.gameOver ==> MinimaxValue(g.board, false) >= 0)
  }

  /** A move changes only its cell; on a game that was not over it ends the
      game exactly when a line is complete or the board is full; the owner of
      the first complete line gains one point, and a tie scores nothing. */
  lemma PlayEffect(g: Game, index: CellIndex, p: Player)
    ensures Play(g, index, p).board == Place(g.board, index, p)
    ensures Play(g, index, p).board[index] == Mark(p)
    ensures forall j :: 0 <= j < 9 && j != index ==> Play(g, index, p).board[j] == g.board[j]
    ensures !g.gameOver ==>
      (Play(g, index, p).gameOver <==> Winner(Play(g, index, p).board).Some? || Full(Play(g, index, p).board))
    ensures Play(g, index, p).playerScore ==
      g.playerScore + (if Winner(Play(g, index, p).board) == Some(X) then 1 else 0)
    ensures Play(g, index, p).aiScore ==
      g.aiScore + (if Winner(Play(g, index, p).board) == Some(O) then 1 else 0)
  {
  }

  /** A click on no cell, on a taken cell or after the game is over changes
      nothing. */
  lemma ClickIgnored(g: Game, cellIndex: int)
    requires Ignored(g, cellIndex)
    ensures Click(g, cellIndex) == g
  {
  }

  /** An accepted click places X; the AI replies exactly when X's move did
      not end the game, and then its move is an empty cell (never -1, since
      a board that is not over is not full); at most one point is scored. */
  lemma ClickEffect(g: Game, cellIndex: CellIndex)
    requires g.board[cellIndex] == Empty && !g.gameOver
    ensures Click(g, cellIndex).board[cellIndex] == Mark(X)
    ensures Play(g, cellIndex, X).gameOver ==> Click(g, cellIndex) == Play(g, cellIndex, X)
    ensures !Play(g, cellIndex, X).gameOver ==>
      var h := Play(g, cellIndex, X);
      var m := BestMove(h.board);
      0 <= m < 9 && m != cellIndex && h.board[m] == Empty && Click(g, cellIndex) == Play(h, m, O)
    ensures g.playerScore <= Click(g, cellIndex).playerScore && g.aiScore <= Click(g, cellIndex).aiScore
    ensures Click(g, cellIndex).playerScore + Click(g, cellIndex).aiScore <= g.playerScore + g.aiScore + 1
  {
    var h := Play(g, cellIndex, X);
    PlayEffect(g, cellIndex, X);
    if h.gameOver {
      assert Click(g, cellIndex) == h;
    } else {
      assert !Full(h.board);
      var m := BestMove(h.board);
      assert Click(g, cellIndex) == Play(h, m, O);
      PlayEffect(h, m, O);
      assert h.playerScore == g.playerScore && h.aiScore == g.aiScore;
    }
  }

  /** A fresh empty board that is not over, as the page creates it and as
      both resets leave it, is consistent and alternating. */
  lemma EmptyGameInvariants(playerScore: nat, aiScore: nat)
    ensures Consistent(Game(EmptyBoard, false, playerScore, aiScore))
    ensures Alternating(Game(EmptyBoard, false, playerScore, aiScore))
  {
    EmptyBoardHasNoWinner();
    EmptyBoardCounts();
  }

  /** Clicks keep the game-over flag consistent with the board. */
  lemma ClickPreservesConsistent(g: Game, cellIndex: int)
    requires Consistent(g)
    ensures Consistent(Click(g, cellIndex))
  {
    if !Ignored(g, cellIndex) {
      var h := Play(g, cellIndex, X);
      PlayConsistent(g, cellIndex, X);
      if !h.gameOver {
        var m := BestMove(h.board);
        PlayConsistent(h, m, O);
      }
    }
  }

  /** A move on a game that is not over leaves it consistent. */
  lemma PlayConsistent(g: Game, index: CellIndex, p: Player)
    requires !g.gameOver
    ensures Consistent(Play(g, index, p))
  {
  }

  /** Clicks keep the marks alternating, although no turn is checked: the AI
      replies to every human move that does not end the game. */
  lemma ClickPreservesAlternating(g: Game, cellIndex: int)
    requires Alternating(g)
    ensures Alternating(Click(g, cellIndex))
  {
    if !Ignored(g, cellIndex) {
      var h := Play(g, cellIndex, X);
      ClickEffect(g, cellIndex);
      PlayEffect(g, cellIndex, X);
      PlaceCounts(g.board, cellIndex, X);
      if !h.gameOver {
        var m := BestMove(h.board);
        PlayEffect(h, m, O);
        PlaceCounts(h.board, m, O);
      }
    }
  }

  /** From a safe position, no click lets the human win: the human's score
      stays the same and the position stays safe. */
  lemma ClickKeepsSafe(g: Game, cellIndex: int)
    requires Safe(g)
    ensures Safe(Click(g, cellIndex))
    ensures Click(g, cellIndex).playerScore == g.playerScore
  {
    if !Ignored(g, cellIndex) {
      var h := Play(g, cellIndex, X);
      PlayEffect(g, cellIndex, X);
      PlayConsistent(g, cellIndex, X);
      assert h.board == Place(g.board, cellIndex, X);
      MinimaxOfChildren(g.board, false);
      assert MinimaxValue(h.board, true) >= 0;
      assert Winner(h.board) != Some(X);
      if !h.gameOver {
        BestMoveIsOptimal(h.board);
        var m := BestMove(h.board);
        var r := Play(h, m, O);
        PlayEffect(h, m, O);
        PlayConsistent(h, m, O);
        assert r.board == Place(h.board, m, O);
        assert MinimaxValue(r.board, false) >= 0;
        assert Winner(r.board) != Some(X);
        assert Click(g, cellIndex) == r;
      } else {
        assert Click(g, cellIndex) == h;
      }
    }
  }

  /** The AI never loses from a safe position: over any sequence of clicks
      the human's score does not change. */
  lemma {:induction false} SessionNeverLoses(g: Game, clicks: seq<int>)
    requires Safe(g)
    ensures Safe(Session(g, clicks))
    ensures Session(g, clicks).playerScore == g.playerScore
    decreases |clicks|
  {
    if clicks != [] {
      ClickKeepsSafe(g, clicks[0]);
      SessionNeverLoses(Click(g, clicks[0]), clicks[1..]);
    }
  }

  /** The game state record, with the board as a nine-cell array that the
      AI's search writes into and restores. */
  class GameState {
    var board: array<Cell>
    var gameOver: bool
    var playerScore: nat
    var aiScore: nat

    ghost predicate Valid()
      reads this
    {
      board.Length == 9
    }

    /** The value of the record. */
    function State(): Game
      reads this, board
      requires Valid()
    {
      Game(board[..], gameOver, playerScore, aiScore)
    }

    constructor ()
      ensures Valid() && fresh(board)
      ensures State() == NewGame
    {
      board := new Cell[9](_ => Empty);
      gameOver := false;
      playerScore := 0;
      aiScore := 0;
      new;
      assert board[..] == EmptyBoard;
    }

    /** The score part of the end-of-game handler. */
    method HandleGameEnd(result: Outcome)
      modifies this`playerScore, this`aiScore
      ensures playerScore == old(playerScore) + (if result == Won(X) then 1 else 0)
      ensures aiScore == old(aiScore) + (if result == Won(O) then 1 else 0)
    {
      if result == Won(X) {
        playerScore := playerScore + 1;
      } else if result == Won(O) {
        aiScore := aiScore + 1;
      }
    }

    method MakeMove(index: CellIndex, player: Player)
      requires Valid()
      modifies this, board
      ensures Valid() && board == old(board)
      ensures State() == Play(old(State()), index, player)
    {
      ghost var g0 := State();
      board[index] := Mark(player);
      assert board[..] == Place(g0.board, index, player);
      var winner := Winner(board[..]);
      if winner.Some? {
        gameOver := true;
        HandleGameEnd(Won(winner.value));
      } else if Full(board[..]) {
        gameOver := true;
        HandleGameEnd(Tie);
      }
    }

    /** The AI's move loop: every empty cell is tried with O, searched with
        X to move and reset to empty; a strictly greater score replaces the
        best so far. */
    method GetBestMove() returns (move: int)
      requires Valid()
      modifies board
      ensures board[..] == old(board[..])
      ensures move == BestMove(old(board[..]))
    {
      ghost var b0: Board := board[..];
      var bestScore := NegInf;
      var bestMove := -1;
      for i := 0 to 9
        invariant board[..] == b0
        invariant BestSoFar(b0, i, bestScore, bestMove)
        invariant BestMoveFrom(b0, i, bestScore, bestMove) == BestMove(b0)
      {
        if board[i] == Empty {
          var score := Probe(board, true, i);
          if score > bestScore {
            bestScore := score;
            bestMove := i;
          }
        }
      }
      move := bestMove;
    }

    method HandleCellClick(cellIndex: int)
      requires Valid()
      modifies this, board
      ensures Valid() && board == old(board)
      ensures State() == Click(old(State()), cellIndex)
    {
      if cellIndex < 0 || cellIndex >= 9 || board[cellIndex] != Empty || gameOver {
        return;
      }
      MakeMove(cellIndex, X);
      if !gameOver {
        var aiMove := GetBestMove();
        if aiMove != -1 {
          MakeMove(aiMove, O);
        }
      }
    }

    /** A fresh empty board and a game that is not over; scores are kept. */
    method ResetGame()
      modifies this
      ensures Valid() && fresh(board)
      ensures State() == Game(EmptyBoard, false, old(playerScore), old(aiScore))
    {
      board := new Cell[9](_ => Empty);
      gameOver := false;
      assert board[..] == EmptyBoard;
    }

    /** Both scores back to 0, then a reset of the game. */
    method ResetScore()
      modifies this
      ensures Valid() && fresh(board)
      ensures State() == NewGame
    {
      playerScore := 0;
      aiScore := 0;
      ResetGame();
    }
  }
}
