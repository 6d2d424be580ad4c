# Othello engine of `app.py`, modelled in Dafny

`app.py` is a one-file Streamlit page on which a human (black, encoded `1`)
plays Othello against an AI (white, `-1`). This project models its game core
as pure Dafny functions over immutable values and proves what that core
promises:
- the starting position;
- the eight-direction legality test and the row-major list of legal moves;
- move application with disc flipping;
- the material evaluation;
- the depth-limited minimax search with alpha-beta pruning;
- the difficulty levels;
- the page-run state machine that sequences human clicks, the delayed AI reply
  and the game-over verdict.

The files follow the program's layers:

- `grid.dfy` (module `Grid`) holds the 8x8 board as a row-major sequence of
  64 cells (`1`, `-1`, `0`), the starting position and disc counting.
- `rules.dfy` (module `Rules`) covers three functions of `app.py`:
  - `is_valid_move` is `IsValidMove`. It walks each ray the way the source's
    `while` loop does and is proved equal to the Othello rule `Legal`: an empty
    square from which some direction holds a run of one or more opponent
    discs closed by one of the mover's discs.
  - `get_valid_moves` is `ValidMoves`, a row-major scan.
  - `make_move` is `MakeMove`. It flips direction by direction, in the
    source's direction order, on the board that earlier directions left. It is
    proved to flip exactly the discs bracketed on the pre-move board.
- `search.dfy` (module `Search`) is `minimax`. It is written over a `Game`
  record of three function values: the move list, the child position and the
  score. That record is all the search asks of the rules.
  - `AlphaBeta`, `MaxLoop` and `MinLoop` follow the source's branches,
    including the strict `>`/`<` update, the `alpha`/`beta` update and the
    `beta <= alpha` cut.
  - `Minimax` is an unpruned reference. It picks the first optimal move in
    list order.
  - The pruned search is proved fail-soft with respect to the reference for
    every window inside the sentinels. With the full window it is proved
    equal to the reference, value and move alike.
- `game.dfy` (module `Othello`) covers the rest:
  - `evaluate_board` is `Evaluate`.
  - `Engine` instantiates the search with `ValidMoves`, `make_move` and
    `Evaluate`.
  - `ai_move` is split into `AiChoice` and `AiMove`, and `Depth` maps the
    difficulty to 1, 3 or 5.
  - The session state becomes a `Session` value. One run of the page script is
    `Rerun`: the new-game button, then a pending AI reply, then a click on a
    square showing a legal black move, then the end-of-page game-over test.
  - `Winner` gives the verdict.

The source's `float('-inf')` and `float('inf')` become `NegInf = -65` and
`PosInf = 65`. Every score lies in [-64, 64], so each comparison the search
makes comes out as it does with the infinities.

### Where the code departs from the usual rules

The model follows the code in each case:
- In standard Othello a side with no legal move passes. This code never
  passes the human. When black has no legal move but white does, every page
  run short of a new game leaves the session unchanged (`Othello.HumanStalls`).
- White's pass is not automatic either. After every human move the AI's reply
  is pending. If white has no move, the pending run plays nothing and hands
  the turn back (`AiMove` with an empty move list).
- Alpha-beta pruning is usually described as never changing the search value.
  Here that holds for the root call with the full window, which is the call
  `ai_move` makes (`Search.AlphaBetaRoot`). For a narrower window the pruned
  value is only a bound (`Search.AlphaBetaBounds`).
- The page keeps no explicit turn phases and reports no wrong-turn error. A
  click while the AI reply is pending is ignored, because the pending reply
  runs first. Squares other than legal black moves are disabled buttons.

## Model

| member | source | states |
|---|---|---|
| Grid.Opponent | app.py:55 | the disc a walk for p looks for is -p |
| Grid.InitBoard | app.py:27-30 | white on (3,3) and (4,4), black on (3,4) and (4,3), every other square empty; 60 empty squares and two discs per side |
| Grid.Count | app.py:94-95 | the number of squares holding a value never exceeds the number of squares |
| Grid.CountExtremes | app.py:94-95 | a count is zero exactly when no square holds the value, and the full length exactly when every square does |
| Rules.Run | app.py:53-58 | the ray walk visits exactly the maximal run of opponent discs starting one step away, and stops at a square that is off the board or not the opponent's |
| Rules.AnyCapturesIff | app.py:52-62 | the direction loop answers true exactly when some remaining direction has a closed run |
| Rules.CapturesBrackets | app.py:60-61 | a walk that finds a run closed by the mover's disc brackets exactly the discs it walked over |
| Rules.BracketsCaptures | app.py:53-61 | a bracketed run is what the walk finds, so the walk succeeds and the bracket length is unique |
| Rules.IsValidMove | app.py:46-48 | a square is accepted only when it is empty; `Rules.IsValidMoveIff` gives the full acceptance condition |
| Rules.IsValidMoveIff | app.py:45-62 | is_valid_move holds exactly when the Othello rule holds: the square is empty and some direction brackets at least one opponent disc |
| Rules.OccupiedIsInvalid | app.py:47-48 | an occupied square is never a legal move |
| Rules.Scan | app.py:66 | the scan from (r, c) lists exactly the squares at or after (r, c) that is_valid_move accepts, in strictly increasing row-major order |
| Rules.ValidMoves | app.py:65-66 | the list holds exactly the squares is_valid_move accepts, each once, in row-major order, all empty |
| Rules.ValidMovesLegal | app.py:65-66 | a square is listed exactly when the Othello rule allows the move |
| Rules.Paint | app.py:87-88 | painting a list of squares sets exactly those squares to p and keeps every other square |
| Rules.FlipRay | app.py:77-88 | one direction of make_move turns to p exactly the squares of a run that a disc on q brackets in that direction, and keeps every other square |
| Rules.FlipFrom | app.py:77-88 | the direction loop of make_move only ever turns squares to p: every square keeps its value or becomes p |
| Rules.MakeMove | app.py:69-71 | a move is applied exactly when is_valid_move holds; a refused move leaves the board unchanged |
| Rules.MakeMoveLegal | app.py:69-71 | a move is applied exactly when the Othello rule allows it; otherwise the board is unchanged |
| Rules.MakeMoveEffect | app.py:73-90 | a legal move puts p on the square, turns every bracketed disc (each the opponent's before) to p, turns at least one, and changes no other square |
| Rules.MakeMoveCounts | app.py:73-90 | a legal move fills exactly one empty square; p gains that disc plus every disc the opponent loses, and the opponent loses at least one |
| Search.AlphaBeta | app.py:101-111 | a leaf (depth 0, or no move for the side to move) returns the score and no move; otherwise the move returned is one of the listed moves; the value lies in [-64, 64] |
| Search.MaxLoop | app.py:113-127 | the maximising loop returns a move from the list and a value in [-64, 64] |
| Search.MinLoop | app.py:129-145 | the minimising loop returns a move from the list and a value in [-64, 64] |
| Search.AlphaBetaBounds | app.py:101-145 | with any window inside the sentinels, the pruned value equals the unpruned one when that lies inside the window, and is an upper (lower) bound no further out than alpha (beta) when it lies below (above) |
| Search.MaxLoopBounds | app.py:113-127 | the maximising loop with alpha cuts keeps the fail-soft bound against the best child value |
| Search.MinLoopBounds | app.py:129-145 | the minimising loop with beta cuts keeps the fail-soft bound against the best child value |
| Search.AlphaBetaRoot | app.py:101-145 | with the full window the pruned search returns the same value and the same move as unpruned minimax |
| Search.MaxLoopRoot | app.py:113-127 | with the full window the maximising loop returns the greatest child value and the first move that reaches it |
| Search.MinLoopRoot | app.py:129-145 | with the full window the minimising loop returns the least child value and the first move that reaches it |
| Othello.Evaluate | app.py:93-95 | white's count minus black's count lies in [-64, 64] |
| Othello.EvaluateAfterMove | app.py:73-95 | a legal move changes the evaluation by 1 + 2 * (discs turned) in the mover's favour, and turns at least one disc |
| Othello.Depth | app.py:149-150 | each difficulty maps to a search depth between 1 and 5 |
| Othello.AiChoice | app.py:148-152 | the AI has no move exactly when white's move list is empty, and any move it picks passes is_valid_move |
| Othello.AiChoiceIsMinimax | app.py:152 | the root call of the pruned search picks the same move as unpruned minimax |
| Othello.AiChoiceFirstBest | app.py:113-127 | the AI plays the first of white's listed moves whose minimax value is greatest |
| Othello.AiChoiceLegal | app.py:152-155 | the AI's move obeys the Othello rule, and the AI has none exactly when the rule gives white no square |
| Othello.AiMove | app.py:148-155 | with no white move the board is unchanged; otherwise the AI's move fills one empty square and white gains that disc plus at least one turned disc |
| Othello.AiMoveEffect | app.py:152-155 | when the AI chooses a square, white's disc lands there, every disc it brackets (black before) turns white, and no other square changes |
| Othello.CannotMoveIff | app.py:233 | a side's move list is empty exactly when the Othello rule gives it no square |
| Othello.StuckIff | app.py:233 | both move lists are empty exactly when neither side has a legal move |
| Othello.OpeningMove | app.py:27-30 | black may open on (2,3), so the starting position is not stuck |
| Othello.NewGame | app.py:27-34 | a new game has 60 empty squares, an evaluation of 0, black to move, no AI reply pending and the game not over |
| Othello.Rerun | app.py:175-234 | the new-game button resets the session and is the only way to clear a declared game over; a pending AI reply hands the turn back to black with nothing pending; otherwise the board changes only by a human move, which hands the turn to white with the reply pending |
| Othello.RerunConsistent | app.py:187-234 | every run keeps the reply pending exactly when it is white's turn, and keeps a finished game free of pending replies and legal moves |
| Othello.AiReply | app.py:187-192 | a run with the AI reply pending plays the AI's turn on the board, gives the turn to black, clears the pending flag and keeps the game-over flag |
| Othello.HumanMove | app.py:212-218 | a click plays black's move exactly when the Othello rule allows it there, then gives the turn to white with the reply pending; otherwise the board stays |
| Othello.HumanStalls | app.py:187-218 | while black has no legal move and white has one, every run short of a new game leaves the session unchanged |
| Othello.GameOverIff | app.py:233-234 | a run reaching the end of the page declares the game over exactly when it already was or neither side has a legal move |
| Othello.GameOverFinal | app.py:233-236 | once the game is over, every run short of a new game leaves the session unchanged |
| Othello.RerunFillsOneSquare | app.py:187-218 | a run either leaves the board alone or fills exactly one empty square |
| Othello.MoveFillsOneSquare | app.py:69-90 | make_move either refuses or fills exactly one empty square |
| Othello.Winner | app.py:236-243 | black wins with more discs, white with more discs, a draw otherwise, and each verdict matches the sign of the evaluation |

## Left out

- The Streamlit page itself is not modelled: styling, title, help text, the button grid, the sidebar and the `st.rerun` calls. A click is modelled as an `Input` that only legal black squares can produce, and each `st.rerun` as the end of one `Rerun`.
- `st.session_state` persistence: the board and the flags are an explicit `Session` value that each run takes and returns.
- The five-second `time.sleep` before the AI's reply. It only delays the reply.
- numpy: `np.zeros`, `np.sum` and `board.copy()` become a sequence, recursive counting and immutable values.
- Board copy and restore around each trial move in `minimax`. Children are new values, so the board after a search is the board before it by construction, and nothing is left to prove.
- The score display is not modelled, because it only renders the counts.
- Search.AlphaBeta: the floating-point infinities are the integer sentinels -65 and 65. They are equivalent because every score lies in [-64, 64].
- The sidebar difficulty selection: the level read on each run is a parameter of `Rerun`.
- Clicks on disabled squares never reach the script. `Rerun` treats a click on a square without a legal black move as no input.
- Othello.Depth: the contract states only that every depth lies in 1..5. The exact map (weak 1, normal 3, strong 5) is its body.
- Rules.IsValidMove: its own contract states only that an accepted square is empty. The equivalence with "some direction brackets a run" is `Rules.AnyCapturesIff` and `Rules.IsValidMoveIff`, because carrying it on every use of the predicate makes the row-major scan too costly to verify.
