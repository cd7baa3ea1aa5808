# Portfolio minigames: tic-tac-toe engine, contact typewriter, Konami code

This project models in Dafny the game logic of a portfolio site's script. It has four parts.

- **The tic-tac-toe minigame** (`board.dfy`, `search.dfy`, `engine.dfy`). The human plays X against an AI playing O. The state record holds:
  - a nine-cell board;
  - a game-over flag;
  - the two score counters.

  A click on an empty cell places X. The AI then replies with the move found by an exhaustive minimax search. The search works in place on the shared board: it writes each trial mark and resets it to empty after searching. A complete line ends the game and gives a point to its owner; a full board ends it as a tie. Two resets exist. One clears the board and keeps the scores. The other zeroes the scores and then clears the board.
- **The contact section's typewriter step** (`typewriter.dfy`). It types a message one character at a time. With the whole message shown it pauses, then deletes one character at a time. Once the text is empty it moves on to the next of the five messages, cyclically.
- **The AI's delayed reply** (`delayed.dfy`). In the script the reply runs from a 500 ms timer. This module models the pending replies explicitly, and shows what the click handler and the reset let through while one is pending (see "## Findings").
- **The Konami-code detector** (`konami.dfy`). It buffers the ten most recent key codes. After each key it compares the buffer with the target code Up Up Down Down Left Right Left Right B A. The comparison is of the two sequences joined into decimal strings.

How the model is built:
- Each part is written against pure specification functions: `Winner`, `MinimaxValue`, `BestMove`, `Play`, `Click`, `Typewriter.Step` and `Konami.Buffer`.
- The mutable objects of the script are classes whose methods are proved to update their fields exactly as those functions say. These are `GameState` (with the board as a nine-cell `array`), `ContactTypewriter` and `KonamiListener`.
- The lemmas state what the script promises about each function.

Where the code and its documentation differ, the model follows the code:
- **No turn check.** A click is accepted whenever its cell is empty and the game is not over. The record's `currentPlayer` field is never read or written. With the AI's reply synchronous, `Engine.ClickPreservesAlternating` shows that marks still alternate, because the AI answers every human move that does not end the game. With the reply on its timer they need not alternate (see "## Findings").
- **Out-of-range indices are ignored.** The click handler's only test of the index is `board[cellIndex] !== ''` (its other test is the game-over flag). A click whose index names no cell reads `undefined`, which is not `''`, so the click changes nothing.

Other modelling choices:
- JavaScript's `-Infinity` and `Infinity`, the initial best scores of the search, are the integers -2 and 2. Every score lies in [-1, 1], so the comparisons come out the same.
- `minimax`'s `depth` argument is never read, so the model drops it.

## Model

| member | source | states |
|---|---|---|
| Board.Winner | script.js:900-914 | Defines the winner check as the scan of the eight lines in order, rows, then columns, then diagonals (also `checkWinnerForMinimax`, script.js:802-819). Board.WinnerIsFirstComplete states what it returns. |
| Board.LineComplete | script.js:909 | Defines the test of one line: its first cell holds a mark and the other two cells hold the same mark. |
| Board.WinnerFrom | script.js:907-913 | Defines the loop over the lines from index k on, returning the mark of the first complete one. Board.WinnerFromIsFirstComplete states what it returns. |
| Board.Full | script.js:796 | Defines `board.every(cell => cell !== '')`, also used by the search at script.js:873: no cell is empty. |
| Board.WinnerIsFirstComplete | script.js:900-914 | The winner check returns no winner exactly when no line is complete. Otherwise it returns the mark on the first complete line in the order rows, columns, diagonals. |
| Board.WinnerFromIsFirstComplete | script.js:907-913 | The scan from line k on finds nothing exactly when no line from k on is complete. Otherwise it finds the mark of the first complete line from k on. |
| Board.Place | script.js:787 | Writing a mark sets that cell to the mark and leaves every other cell as it was. |
| Board.PlaceCounts | script.js:787 | Writing a mark into an empty cell removes one empty cell and adds one mark of that player. The other player's count is unchanged. This is the search's termination measure. |
| Board.EmptyBoardCounts | script.js:700 | The board as created holds nine empty cells and no mark of either player. |
| Board.EmptyBoardHasNoWinner | script.js:700 | The board as created (`Array(9).fill('')`) has no winner and is not full. |
| Search.ChildValue | script.js:878-882 | Defines one trial: the value of the board after the side to move plays cell j, with the other side to move. Search.Probe is the in-place trial proved equal to it. |
| Search.Best | script.js:875-897 | The search loop over cells i to 8 returns its starting score when no cell from i on is empty, and a score in [-1, 1] otherwise. |
| Search.MinimaxValue | script.js:868-898 | The minimax value is always -1, 0 or 1. |
| Search.TerminalScores | script.js:869-873 | The value is 1 when O holds a line and -1 when X does. It is 0 when no line is complete and the board is full. |
| Search.MinimaxOfChildren | script.js:875-897 | On a board that is not over, with O to move, no empty cell's child has a greater value than the board, and with X to move none has a smaller one. Some empty cell's child attains the board's value. |
| Search.BestBounds | script.js:876-885 | The search loop's result is at least as good as its starting score for the side to move, and at least as good as every empty cell's child from the current index on. |
| Search.BestAttained | script.js:876-885 | The search loop's result is its starting score or the value of some empty cell's child. |
| Search.BestMoveFrom | script.js:852-863 | The AI's loop either saw no empty cell (move -1, score -Infinity), or its move is an empty cell. That cell's trial value is strictly greater than every earlier empty cell's and at least every later one's. |
| Search.BestMove | script.js:847-866 | The AI's move is -1 exactly when the board is full. Otherwise it is the lowest-indexed empty cell whose trial value (O there, X to move) is strictly greatest. |
| Search.BestMoveIsOptimal | script.js:847-866 | On a board that is not over, the AI's move reaches the board's minimax value with O to move. |
| Search.Probe | script.js:878-882 | One trial writes the mover's mark into an empty cell, searches, and resets the cell. It returns the child's minimax value and leaves the board exactly as it was. |
| Search.Minimax | script.js:868-898 | The in-place search returns the minimax value of the board it was given, and leaves the board exactly as it was. |
| Engine.Play | script.js:786-799 | Defines makeMove on values: write the mark, then score a complete line or end a full board as a tie. Engine.PlayEffect and Engine.PlayConsistent state its effect. |
| Engine.Ignored | script.js:768 | Defines the click guard: the index names no cell, the cell is taken, or the game is over. Engine.ClickIgnored states that such a click changes nothing. |
| Engine.Click | script.js:765-784 | Defines handleCellClick on values with the AI's reply synchronous: the guard, X's move, then the AI's best move unless X's move ended the game. Engine.ClickIgnored and Engine.ClickEffect state its effect. |
| Engine.PlayEffect | script.js:786-799 | A move changes only its cell, to the player's mark. On a game that was not over, it sets the game-over flag exactly when a line is complete or the board is full. The owner of a completed line scores one point; a tie scores nothing. |
| Engine.PlayConsistent | script.js:792-799 | After a move on a game that was not over, the game-over flag agrees with the board. |
| Engine.ClickIgnored | script.js:768-770 | A click on a taken cell, on no cell, or after the game is over changes nothing. |
| Engine.ClickEffect | script.js:772-782 | An accepted click places X. The AI replies exactly when X's move did not end the game. Its reply is an empty cell other than the clicked one. No score decreases, and at most one point is scored. |
| Engine.ClickPreservesConsistent | script.js:765-784 | Clicks keep the game-over flag equal to "a line is complete or the board is full". |
| Engine.ClickPreservesAlternating | script.js:765-784 | With the AI's reply synchronous, clicks keep #O <= #X <= #O + 1, with #X = #O while the game goes on, although no turn is checked. |
| Engine.EmptyGameInvariants | script.js:698-705 | A fresh board that is not over is consistent and alternating. |
| Engine.ClickKeepsSafe | script.js:775-782 | Suppose the game is consistent and, while it goes on, the human cannot force a win (the value with X to move is at least 0). Then after any click this still holds, and the human's score is unchanged. |
| Engine.SessionNeverLoses | script.js:765-784 | With the AI's reply synchronous: from such a safe position, no sequence of clicks ever raises the human's score. |
| Engine.GameState.constructor | script.js:698-705 | The record starts with an empty board, not over, and both scores 0. |
| Engine.GameState.HandleGameEnd | script.js:826-838 | A win by X adds one to the player's score, a win by O adds one to the AI's score, and a tie changes neither. |
| Engine.GameState.MakeMove | script.js:786-799 | The record after a move is `Play` of the record before. |
| Engine.GameState.GetBestMove | script.js:847-866 | The AI's loop returns `BestMove` of the board and leaves the board exactly as it was. |
| Engine.GameState.HandleCellClick | script.js:765-784 | The record after a click is `Click` of the record before. |
| Engine.GameState.ResetGame | script.js:916-918 | All nine cells become empty and the game is not over. Both scores are kept. |
| Engine.GameState.ResetScore | script.js:930-935 | Both scores become 0, then the game is reset. |
| Delayed.PressAsWritten | script.js:765-784 | Defines the click handler with the reply on its timer: the same guard, X's move, and one more scheduled reply unless that move ended the game. |
| Delayed.FireAsWritten | script.js:777-782 | Defines the timer's callback: the AI's move on whatever board it finds, played without testing the game-over flag again. |
| Delayed.ResetAsWritten | script.js:916-918 | Defines the reset: an empty board, not over, with the scores and any scheduled reply kept. |
| Delayed.PressAsWrittenSchedules | script.js:768-782 | An accepted click that does not end the game places X and adds one scheduled reply, whether or not one was already pending. |
| Delayed.AsWrittenTwoQuickClicks | script.js:765-784 | On a new game, clicks on cells 0 and 1 before the first reply runs are both accepted. X then holds cells 0 and 1, O holds nothing, two replies are pending, and the marks no longer alternate. |
| Delayed.AfterWinReplyRescores | script.js:777-799 | A reply that runs on a game already over, with a complete line and an empty cell, scores that game again: the total score rises by one and the game stays over. When the line is the top row and holds X, the point is the human's. |
| Delayed.AsWrittenDoubleScore | script.js:765-799 | On a new game, quick clicks on cells 0, 1 and 2 complete X's top row and score it once, with two replies pending. The first reply then raises the human's score to 2 for that one game. |
| Delayed.AsWrittenResetLetsOMoveFirst | script.js:777-782 | After a reset while a reply is pending, the reply places O on the new board. It then holds one O and no X, which breaks alternation. |
| Delayed.PressFixed | script.js:768-770 | The corrected guard also refuses a click while a reply is pending. |
| Delayed.ResetFixed | script.js:916-918 | The corrected reset also cancels the pending reply. |
| Delayed.ReplyNeverScoresForHuman | script.js:786-799 | An O move on a consistent game that goes on never raises the human's score. |
| Delayed.PressFixedKeepsTurns | script.js:765-784 | A corrected click keeps the turn invariant. The invariant is: the flag agrees with the board, at most one reply is pending, the marks alternate while none is, and while one is pending the game goes on with X one mark ahead. |
| Delayed.FireKeepsTurns | script.js:777-782 | The pending reply keeps the turn invariant: it levels the marks (or ends the game) and leaves no reply pending. |
| Delayed.FixedStepKeepsTurns | script.js:765-784 | Every event keeps the turn invariant under the corrected handler: a click, a reply running, or a reset. |
| Delayed.FixedTurnIsClick | script.js:765-784 | Under the corrected handler with no reply pending, a click and then its reply give exactly the synchronous `Click`. While a reply is pending a click changes nothing, and the reply does not raise the human's score. |
| Delayed.FixedOverIsFrozen | script.js:768-782 | Under the corrected handler, a game that is over and keeps the turn invariant is left exactly as it is by every event except a reset. |
| Delayed.FixedGameScoredOnce | script.js:768-782 | Under the corrected handler every game is scored once: once the game is over, no sequence of clicks and replies without a reset changes the board, the flag or either score. |
| Delayed.XsFirstCounts | script.js:700 | The new board after X is written into cells 0 to n-1 holds n X marks, no O and 9 - n empty cells. |
| Delayed.XsFirstNoWinner | script.js:900-914 | A board with X in at most cells 0 and 1 has no complete line and is not full. |
| Typewriter.Prefix | script.js:427 | `substring(0, end)` is a prefix whose length is `end` clamped into [0, length]. |
| Typewriter.Step | script.js:423-444 | Defines one run of the effect: the new message index, deleting flag and text, and the delay before the next run. Typewriter.StepEffect states its effect. |
| Typewriter.Steps | script.js:446 | Defines n successive runs, each scheduled by the previous one. Typewriter.StepsAdd, TypingPhase, DeletingPhase and MessageCycle are about it. |
| Typewriter.StepEffect | script.js:423-444 | After a step the text is a prefix of the current message. Deleting starts exactly when typing reaches the whole message. The index advances, modulo the number of messages, exactly when deleting reaches the empty text. |
| Typewriter.TypingPhase | script.js:429-439 | Typing from a strict prefix reaches the whole message after as many steps as characters are missing, and then starts deleting. |
| Typewriter.DeletingPhase | script.js:426-443 | Deleting from a non-empty prefix reaches the empty text after as many steps as it has characters, and moves to the next message. |
| Typewriter.StepsAdd | script.js:446 | Running a steps and then b steps is running a + b steps. |
| Typewriter.MessageCycle | script.js:423-446 | Starting on a non-empty message, twice its length in steps brings the typewriter to the next message with the empty text, typing. |
| Typewriter.ContactTypewriter.constructor | script.js:410-420 | The typewriter starts on message 0, typing, with the empty text. |
| Typewriter.ContactTypewriter.TypeEffect | script.js:423-446 | One run of the effect updates the closure's variables as `Step` does, and returns the pause `Step` gives: 50 or 100 ms, 2000 ms at a full message, 500 ms at the empty text. |
| Konami.Last | script.js:585 | `slice(-n)` returns the last n elements, or the whole array when it is shorter. |
| Konami.Push | script.js:584-585 | One key leaves a buffer of at most the target's length, never empty, which ends in the new code and is a suffix of the old buffer followed by that code. |
| Konami.Buffer | script.js:583-585 | Defines the buffer after a sequence of keys from the empty array. Konami.BufferHoldsRecentKeys states what it holds. |
| Konami.Join | script.js:587 | `join('')` of the codes gives a text with at least one digit per code. |
| Konami.Decimal | script.js:587 | A key code's decimal text has one digit below 10 and two from 10 to 99. |
| Konami.Activated | script.js:587 | Defines the activation test `konamiCode.join('') === targetCode.join('')`: the joined texts are equal. Konami.TwoDigitActivation and Konami.JoinCollision state when it holds. |
| Konami.BufferHoldsRecentKeys | script.js:583-585 | The buffer never holds more than the target's length (ten) of codes, and always holds the most recent keys. |
| Konami.TargetActivates | script.js:587 | Pressing the target code as the last keys activates the detector. |
| Konami.JoinAppend | script.js:587 | Joining a concatenation is concatenating the joins. |
| Konami.JoinSameText | script.js:587 | The codes 383, 8 and the codes 38, 38 join to the same text, whatever follows them. |
| Konami.JoinCollision | script.js:587 | The string comparison is weaker than code-by-code equality. For a target starting 38, 38, as the Konami code does, keys ending in 383, 8 and then the rest of the target leave a buffer that differs from the target yet activates the detector. No keyboard sends 383 (key codes stay below 256). For the Konami code no collision needs a code that low: every three-digit piece of its joined text is above 255 or starts with 0. That argument is not itself proved here. |
| Konami.JoinTwoDigitInjective | script.js:587 | For two-digit codes, equal joined texts mean equal codes. |
| Konami.TwoDigitActivation | script.js:581-587 | While every buffered code and every target code has two digits, as every code of the Konami code has, activation is exactly buffer = target. |
| Konami.KonamiActivation | script.js:581-587 | For the Konami code itself (every code of which has two digits), a buffer of two-digit codes activates the detector exactly when it equals the code. |
| Konami.KonamiListener.constructor | script.js:580-581 | The listener starts with an empty buffer and the Konami code as its target. |
| Konami.KonamiListener.KeyDown | script.js:583-587 | A keydown appends the code and keeps the last ten. It reports activation exactly when the joined buffer equals the joined target. |

## Findings

| source | as written | input that shows it | evidently intended | confidence | as-written member | corrected member |
|---|---|---|---|---|---|---|
| script.js:768-782 | The click guard tests only the cell and the game-over flag, and the AI's reply runs later from a timer that does not test the flag again. So clicks are accepted while a reply is pending, and a reply that runs after X has won scores X's line a second time. | On a new game, clicks on cells 0, 1 and 2 within 500 ms, then the first reply runs: the human scores 2 for one game. | No click is accepted while the AI's reply is pending, so every game is scored once and the marks alternate. | not executed | Delayed.AsWrittenDoubleScore | Delayed.FixedGameScoredOnce |
| script.js:916-918 | resetGame clears the board but leaves a scheduled reply in place. | On a new game, a click on any cell, then a reset within 500 ms, then the reply runs: O holds a cell of the new board and X none. | A reset cancels the pending reply, so the new game starts with X to move. | not executed | Delayed.AsWrittenResetLetsOMoveFirst | Delayed.FixedStepKeepsTurns |

With the correction, no click is accepted while a reply is pending, and a click and its reply are exactly `Engine.Click` (Delayed.FixedTurnIsClick). A game that is over stays as it is until a reset (Delayed.FixedOverIsFrozen, Delayed.FixedGameScoredOnce). The `Engine` and `GameState` members are therefore the corrected behaviour.

## Left out

- DOM work:
  - cell text and classes;
  - winning-cell highlighting (so `checkWinner` and `checkWinnerForMinimax` are the one function `Winner`);
  - status text and colours;
  - the score display;
  - the modal's opening and closing;
  - the page's other features (language toggle, counters, scroll handlers, clipboard, toasts, the form).
- Timers:
  - In `Engine`, the AI's 500 ms delayed reply is modelled as a synchronous call right after the human's move. `Delayed` models the timer as a count of pending replies, without their timing. With the real timer:
    - a click during the delay is accepted, so X can move twice in a row;
    - the pending callback does not test the game-over flag again, so after X completes a line the reply still moves and the game is scored a second time;
    - a reset during the delay lets O move first on the new board.
  - `TypeEffect` returns the delay and does not schedule itself.
  - The typewriter's first 2-second wait is not modelled.
- The game record's `isOpen` and `currentPlayer` fields. The engine never reads `currentPlayer`, and `isOpen` only concerns the modal.
- `parseInt` of the cell's `data-index` attribute. The model takes the resulting integer. A `NaN` index behaves like an out-of-range one in the script (both read `undefined`), and the model has no `NaN`.
- Engine.SessionNeverLoses: this does not prove that the AI never loses from the empty board. It proves that the human cannot score from any position whose minimax value with X to move is at least 0. That the empty board has such a value needs the whole game tree evaluated, which the model does not do.
- Scenario checks of particular games (a winning line for X, the AI blocking a threat, a tie) are not stated as separate lemmas: they would need the game tree of concrete boards evaluated.
