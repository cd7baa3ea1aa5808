/** The click handler with the AI's reply deferred by a timer: a click that
    does not end the game schedules one reply, and each scheduled reply later
    computes the AI's move on whatever board it then finds. The handler as
    written accepts clicks and resets while a reply is pending; the corrected
    handler refuses clicks while one is pending and cancels it on a reset. */
module Delayed {
  import opened Board
  import opened Search
  import opened Engine

  /** The game record together with the number of scheduled replies that
      have not run yet. */
  datatype Timed = Timed(game: Game, pending: nat)

  /** What can happen next: a click on a cell, a scheduled reply running, or
      a reset of the game. */
  datatype Event = Press(cellIndex: int) | Fire | Reset

  /** The click handler as written: the same guard as the synchronous click
      (the cell and the game-over flag only), then X's move, and a reply is
      scheduled unless that move ended the game. */
  function PressAsWritten(t: Timed, cellIndex: int): Timed
  {
    var g := t.game;
    if Ignored(g, cellIndex) then t
    else
      var h := Play(g, cellIndex, X);
      Timed(h, if h.gameOver then t.pending else t.pending + 1)
  }

  /** A scheduled reply as written: the AI's move on the current board,
      played without looking at the game-over flag again. */
  function FireAsWritten(t: Timed): Timed
    requires t.pending > 0
  {
    var m := BestMove(t.game.board);
    Timed(if m != -1 then Play(t.game, m, O) else t.game, t.pending - 1)
  }

  /** The reset as written: an empty board that is not over; the scores and
      the scheduled replies stay. */
  function ResetAsWritten(t: Timed): Timed
  {
    Timed(t.game.(board := EmptyBoard, gameOver := false), t.pending)
  }

  function StepAsWritten(t: Timed, e: Event): Timed
  {
    match e
    case Press(i) => PressAsWritten(t, i)
    case Fire => if t.pending > 0 then FireAsWritten(t) else t
    case Reset => ResetAsWritten(t)
  }

  function RunAsWritten(t: Timed, events: seq<Event>): Timed
    decreases |events|
  {
    if events == [] then t else RunAsWritten(StepAsWritten(t, events[0]), events[1..])
  }

  /** The corrected click handler: no click is accepted while a reply is
      pending. */
  function PressFixed(t: Timed, cellIndex: int): Timed
  {
    if t.pending > 0 then t else PressAsWritten(t, cellIndex)
  }

  /** The corrected reset: the pending reply, if any, is cancelled. */
  function ResetFixed(t: Timed): Timed
  {
    Timed(t.game.(board := EmptyBoard, gameOver := false), 0)
  }

  function StepFixed(t: Timed, e: Event): Timed
  {
    match e
    case Press(i) => PressFixed(t, i)
    case Fire => if t.pending > 0 then FireAsWritten(t) else t
    case Reset => ResetFixed(t)
  }

  /** The turn discipline the delay must not break: the flag agrees with the
      board, at most one reply is pending, marks alternate while none is, and
      while one is the game goes on with X one mark ahead. */
  predicate TurnInvariant(t: Timed)
  {
    Consistent(t.game) && t.pending <= 1 &&
    (t.pending == 0 ==> Alternating(t.game)) &&
    (t.pending == 1 ==>
      (!t.game.gameOver && Count(t.game.board, Mark(X)) == Count(t.game.board, Mark(O)) + 1))
  }

  /** An O move on a game that goes on never scores for X: a line complete
      after it either holds the new O or was complete before. */
  lemma ReplyNeverScoresForHuman(g: Game, m: CellIndex)
    requires Consistent(g) && !g.gameOver && g.board[m] == Empty
    ensures Play(g, m, O).playerScore == g.playerScore
  {
    var b := Place(g.board, m, O);
    PlayEffect(g, m, O);
    WinnerIsFirstComplete(b);
    WinnerIsFirstComplete(g.board);
  }

  /** A corrected click keeps the turn discipline: it is ignored while a
      reply is pending, and otherwise X's move either ends the game or leaves
      one reply pending with X one mark ahead. */
  lemma PressFixedKeepsTurns(t: Timed, i: int)
    requires TurnInvariant(t)
    ensures TurnInvariant(PressFixed(t, i))
  {
    var g := t.game;
    if t.pending == 0 && !Ignored(g, i) {
      PlayEffect(g, i, X);
      PlayConsistent(g, i, X);
      PlaceCounts(g.board, i, X);
    }
  }

  /** The pending reply brings the marks level again and leaves none
      pending. */
  lemma FireKeepsTurns(t: Timed)
    requires TurnInvariant(t) && t.pending > 0
    ensures TurnInvariant(FireAsWritten(t))
  {
    var g := t.game;
    assert !Full(g.board);
    var m := BestMove(g.board);
    PlayEffect(g, m, O);
    PlayConsistent(g, m, O);
    PlaceCounts(g.board, m, O);
  }

  /** The corrected handler keeps the turn discipline through every event. */
  lemma FixedStepKeepsTurns(t: Timed, e: Event)
    requires TurnInvariant(t)
    ensures TurnInvariant(StepFixed(t, e))
  {
    match e
    case Press(i) => PressFixedKeepsTurns(t, i);
    case Fire => if t.pending > 0 { FireKeepsTurns(t); }
    case Reset => EmptyGameInvariants(t.game.playerScore, t.game.aiScore);
  }

  /** The corrected handler's events in order. */
  function RunFixed(t: Timed, events: seq<Event>): Timed
    decreases |events|
  {
    if events == [] then t else RunFixed(StepFixed(t, events[0]), events[1..])
  }

  /** Under the corrected handler a game that is over has no reply pending,
      so nothing but a reset changes it. */
  lemma FixedOverIsFrozen(t: Timed, e: Event)
    requires TurnInvariant(t) && t.game.gameOver && !e.Reset?
    ensures StepFixed(t, e) == t
  {
  }

  /** Under the corrected handler every game is scored once: from the moment
      a game is over, no sequence of clicks and replies without a reset
      changes the board, the flag or either score. */
  lemma {:induction false} FixedGameScoredOnce(t: Timed, events: seq<Event>)
    requires TurnInvariant(t) && t.game.gameOver
    requires forall k :: 0 <= k < |events| ==> !events[k].Reset?
    ensures RunFixed(t, events) == t
    decreases |events|
  {
    if events != [] {
      FixedOverIsFrozen(t, events[0]);
      FixedGameScoredOnce(t, events[1..]);
    }
  }

  /** With the correction, a click followed by its reply is exactly the
      synchronous click, a click while a reply is pending changes nothing,
      and a reply never scores for X. */
  lemma FixedTurnIsClick(t: Timed, cellIndex: int)
    requires TurnInvariant(t)
    ensures t.pending == 0 ==>
      StepFixed(StepFixed(t, Press(cellIndex)), Fire) == Timed(Click(t.game, cellIndex), 0)
    ensures t.pending > 0 ==> StepFixed(t, Press(cellIndex)) == t
    ensures t.pending > 0 ==> StepFixed(t, Fire).game.playerScore == t.game.playerScore
  {
    var g := t.game;
    if t.pending == 0 && !Ignored(g, cellIndex) {
      var h := Play(g, cellIndex, X);
      PlayConsistent(g, cellIndex, X);
      if !h.gameOver {
        assert StepFixed(t, Press(cellIndex)) == Timed(h, 1);
        assert !Full(h.board);
      }
    }
    if t.pending > 0 {
      assert !Full(g.board);
      ReplyNeverScoresForHuman(g, BestMove(g.board));
    }
  }

  /** The board with X in cells 0 .. n-1 and every other cell empty. */
  function XsFirst(n: nat): Board
    requires n <= 9
  {
    seq(9, i => if i < n then Mark(X) else Empty)
  }

  /** Writing X into cell n - 1 of XsFirst(n - 1) gives XsFirst(n). */
  lemma XsFirstStep(n: nat)
    requires 0 < n <= 9
    ensures XsFirst(n) == Place(XsFirst(n - 1), n - 1, X)
  {
    var p := Place(XsFirst(n - 1), n - 1, X);
    forall i | 0 <= i < 9
      ensures XsFirst(n)[i] == p[i]
    {
    }
  }

  /** The new board after X is written into cells 0, 1, ..., n-1 in turn,
      which holds n X marks, no O and 9 - n empty cells. */
  lemma {:induction false} XsFirstCounts(n: nat)
    requires n <= 9
    ensures Count(XsFirst(n), Mark(X)) == n && Count(XsFirst(n), Mark(O)) == 0
    ensures Count(XsFirst(n), Empty) == 9 - n
    decreases n
  {
    if n == 0 {
      assert XsFirst(n) == EmptyBoard;
      EmptyBoardCounts();
    } else {
      XsFirstCounts(n - 1);
      XsFirstStep(n);
      assert XsFirst(n - 1)[n - 1] == Empty;
      PlaceCounts(XsFirst(n - 1), n - 1, X);
    }
  }

  /** With X in at most the first two cells no line is complete: every
      line's last cell has index 2 or more. */
  lemma XsFirstNoWinner(n: nat)
    requires n <= 2
    ensures Winner(XsFirst(n)).None? && !Full(XsFirst(n))
  {
    var b := XsFirst(n);
    forall k | 0 <= k < |Lines|
      ensures !LineComplete(b, k)
    {
      var (a, c, d) := Lines[k];
      assert d >= 2;
      assert b[d] == Empty;
    }
    WinnerIsFirstComplete(b);
    assert b[8] == Empty;
  }

  /** As written, a click that is accepted and does not end the game adds
      one scheduled reply, whether or not one was already pending. */
  lemma PressAsWrittenSchedules(t: Timed, i: CellIndex)
    requires t.game.board[i] == Empty && !t.game.gameOver
    requires Winner(Place(t.game.board, i, X)).None? && !Full(Place(t.game.board, i, X))
    ensures PressAsWritten(t, i) == Timed(t.game.(board := Place(t.game.board, i, X)), t.pending + 1)
  {
  }

  /** As written, two quick clicks on cells 0 and 1 of a new game are both
      accepted: X moves twice in a row and two replies are pending. */
  lemma AsWrittenTwoQuickClicks()
    ensures var t := RunAsWritten(Timed(NewGame, 0), [Press(0), Press(1)]);
      t == Timed(Game(XsFirst(2), false, 0, 0), 2) && !Alternating(t.game)
  {
    assert EmptyBoard == XsFirst(0);
    XsFirstStep(1);
    XsFirstStep(2);
    XsFirstCounts(2);
    XsFirstNoWinner(1);
    XsFirstNoWinner(2);
    var t1 := Timed(Game(XsFirst(1), false, 0, 0), 1);
    var t2 := Timed(Game(XsFirst(2), false, 0, 0), 2);
    PressAsWrittenSchedules(Timed(NewGame, 0), 0);
    PressAsWrittenSchedules(t1, 1);
    assert StepAsWritten(Timed(NewGame, 0), Press(0)) == t1;
    assert StepAsWritten(t1, Press(1)) == t2;
    assert [Press(0), Press(1)][1..] == [Press(1)];
    assert [Press(1)][1..] == [];
  }

  /** As written, a reply that runs on a game already over, with a complete
      line and a cell still empty, counts that game a second time: the
      scores rise by one more point and the game stays over. When the line
      is the first row and holds X, the extra point is the human's. */
  lemma AfterWinReplyRescores(g: Game, k: nat)
    requires k < |Lines| && LineComplete(g.board, k) && !Full(g.board)
    ensures var u := FireAsWritten(Timed(g, 1)).game;
      u.gameOver && u.playerScore + u.aiScore == g.playerScore + g.aiScore + 1
    ensures var u := FireAsWritten(Timed(g, 1)).game;
      k == 0 && g.board[0] == Mark(X) ==> u.playerScore == g.playerScore + 1
  {
    var m := BestMove(g.board);
    var b := Place(g.board, m, O);
    var (a, c, d) := Lines[k];
    assert b[a] == g.board[a] && b[c] == g.board[c] && b[d] == g.board[d];
    assert LineComplete(b, k);
    WinnerIsFirstComplete(b);
    PlayEffect(g, m, O);
  }

  /** As written, three quick clicks on cells 0, 1 and 2 of a new game are
      all accepted; the third completes X's top row and scores it, and the
      first pending reply then scores the same game again: two points for
      the human from one game. */
  lemma AsWrittenDoubleScore()
    ensures var t := RunAsWritten(Timed(NewGame, 0), [Press(0), Press(1), Press(2)]);
      t.game.gameOver && t.game.playerScore == 1 && t.pending == 2
    ensures RunAsWritten(Timed(NewGame, 0), [Press(0), Press(1), Press(2), Fire]).game.playerScore == 2
  {
    AsWrittenTwoQuickClicks();
    var t2 := Timed(Game(XsFirst(2), false, 0, 0), 2);
    assert Place(XsFirst(2), 2, X) == XsFirst(3);
    var b3 := XsFirst(3);
    assert LineComplete(b3, 0);
    assert Winner(b3) == Some(X);
    var t3 := Timed(Game(b3, true, 1, 0), 2);
    assert PressAsWritten(t2, 2) == t3;
    assert RunAsWritten(Timed(NewGame, 0), [Press(0), Press(1), Press(2)]) == t3 by {
      RunAppend(Timed(NewGame, 0), [Press(0), Press(1)], [Press(2)]);
      assert [Press(0), Press(1)] + [Press(2)] == [Press(0), Press(1), Press(2)];
    }
    assert b3[8] == Empty;
    AfterWinReplyRescores(t3.game, 0);
    assert FireAsWritten(t3).game == FireAsWritten(Timed(t3.game, 1)).game;
    assert RunAsWritten(Timed(NewGame, 0), [Press(0), Press(1), Press(2), Fire]) == FireAsWritten(t3) by {
      RunAppend(Timed(NewGame, 0), [Press(0), Press(1), Press(2)], [Fire]);
      assert [Press(0), Press(1), Press(2)] + [Fire] == [Press(0), Press(1), Press(2), Fire];
    }
  }

  lemma {:induction false} RunAppend(t: Timed, a: seq<Event>, b: seq<Event>)
    ensures RunAsWritten(t, a + b) == RunAsWritten(RunAsWritten(t, a), b)
    decreases |a|
  {
    if a == [] {
      assert a + b == b;
    } else {
      assert (a + b)[0] == a[0] && (a + b)[1..] == a[1..] + b;
      RunAppend(StepAsWritten(t, a[0]), a[1..], b);
    }
  }

  /** As written, a reset while a reply is pending lets O move first on the
      new board. */
  lemma AsWrittenResetLetsOMoveFirst(t: Timed)
    requires t.pending > 0
    ensures var u := FireAsWritten(ResetAsWritten(t)).game;
      Count(u.board, Mark(O)) == 1 && Count(u.board, Mark(X)) == 0 && !Alternating(u)
  {
    EmptyBoardHasNoWinner();
    var m := BestMove(EmptyBoard);
    assert m != -1;
    PlaceCounts(EmptyBoard, m, O);
    PlayEffect(ResetAsWritten(t).game, m, O);
    EmptyBoardCounts();
  }
}
