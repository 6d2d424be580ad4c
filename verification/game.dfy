/** The engine as app.py assembles it: the static evaluation (evaluate_board),
    the AI's turn (ai_move), one run of the page script (new game, pending AI
    move, human click, game-over check) and the final verdict. The Streamlit
    session state becomes an explicit Session value that each run takes and
    returns. */
module Othello {
  import opened Grid
  import opened Rules
  import opened Search

  // ---------------------------------------------------------------------
  // evaluate_board
  // ---------------------------------------------------------------------

  /** White discs minus black discs: positive when the AI is ahead. Every
      square holds at most one disc, so the difference never leaves [-64, 64]. */
  function Evaluate(b: Board): (e: int)
    ensures -64 <= e <= 64
  {
    CountTotal(b);
    Count(b, White) - Count(b, Black)
  }

  /** A legal move swings the evaluation towards the mover by the placed disc
      plus twice the discs it turned: up for white, down for black. */
  lemma EvaluateAfterMove(b: Board, q: Square, p: Player)
    requires Legal(b, q, p)
    ensures var b' := MakeMove(b, q, p).board;
            var lost := Lost(b, b', Opponent(p));
            && lost >= 1
            && Evaluate(b') == if p == White then Evaluate(b) + 1 + 2 * lost else Evaluate(b) - 1 - 2 * lost
  {
    var b' := MakeMove(b, q, p).board;
    MakeMoveCounts(b, q, p);
    EvaluateSwing(b, b', p, Lost(b, b', Opponent(p)));
  }

  /** The evaluation change when p gains the placed disc and lost turned discs. */
  lemma EvaluateSwing(b: Board, b': Board, p: Player, lost: int)
    requires Count(b', p) == Count(b, p) + 1 + lost
    requires Count(b', Opponent(p)) == Count(b, Opponent(p)) - lost
    ensures Evaluate(b') == if p == White then Evaluate(b) + 1 + 2 * lost else Evaluate(b) - 1 - 2 * lost
  {
  }

  // ---------------------------------------------------------------------
  // the search over the real rules
  // ---------------------------------------------------------------------

  /** A game whose scores stay within [-64, 64], as the search needs. */
  type BoundedGame = g: Game | ScoreBounded(g) witness Game((b, p) => [], (b, q, p) => b, b => 0)

  /** The board a trial move leads to. minimax plays only listed moves, so
      make_move always applies them. */
  function Child(b: Board, q: Square, p: Player): Board {
    MakeMove(b, q, p).board
  }

  /** The search as app.py runs it: moves in get_valid_moves order, make_move
      to reach the child position and evaluate_board at the leaves. */
  const Engine: BoundedGame := Game(ValidMoves, Child, Evaluate)

  /** The three difficulty settings of the sidebar. */
  datatype Level = Weak | Normal | Strong

  /** The search depth of each setting. */
  function Depth(level: Level): (d: nat)
    ensures 1 <= d <= 5
  {
    match level
    case Weak => 1
    case Normal => 3
    case Strong => 5
  }

  /** The move the AI picks: the root call of the alpha-beta search for white
      with the full window. There is none exactly when white cannot move, and
      a move it picks is one white may legally make. */
  function AiChoice(b: Board, level: Level): (m: Option<Square>)
    ensures m.None? <==> ValidMoves(b, White) == []
    ensures m.Some? ==> IsValidMove(b, m.value, White)
  {
    AlphaBeta(Engine, b, Depth(level), true, NegInf, PosInf).move
  }

  /** The AI's turn: play the chosen move as white, or leave the board as it
      is when there is none. */
  function AiMove(b: Board, level: Level): (b': Board)
    ensures ValidMoves(b, White) == [] ==> b' == b
    ensures ValidMoves(b, White) != [] ==>
              Count(b', Empty) == Count(b, Empty) - 1 && Count(b', White) >= Count(b, White) + 2
  {
    match AiChoice(b, level)
    case None => b
    case Some(q) =>
      IsValidMoveIff(b, q, White);
      MakeMoveCounts(b, q, White);
      MakeMove(b, q, White).board
  }

  /** The AI's turn on the board: white's disc on the square minimax chose,
      every disc it brackets turned white, and every other square as before. */
  lemma AiMoveEffect(b: Board, level: Level, q: Square)
    ensures AiChoice(b, level) == Some(q) ==>
              var b' := AiMove(b, level);
              && At(b', q) == White
              && (forall f: Square :: Flipped(b, q, White, f) ==> At(b, f) == Black && At(b', f) == White)
              && (forall f: Square :: f != q && !Flipped(b, q, White, f) ==> At(b', f) == At(b, f))
  {
    if AiChoice(b, level) == Some(q) {
      AiChoiceLegal(b, level);
      MakeMoveEffect(b, q, White);
    }
  }

  /** Pruning changes nothing the player sees: the AI picks the first move,
      in row-major order, among those of highest plain-minimax value. */
  lemma AiChoiceIsMinimax(b: Board, level: Level)
    ensures AiChoice(b, level) == Minimax(Engine, b, Depth(level), true).move
  {
    AlphaBetaRoot(Engine, b, Depth(level), true);
  }

  /** Spelled out: among white's legal moves in row-major order, the AI plays
      the first whose position has the highest minimax value. */
  lemma AiChoiceFirstBest(b: Board, level: Level)
    ensures var moves := ValidMoves(b, White);
            moves != [] ==>
              exists k :: IsFirstBest(Values(Engine, b, moves, Depth(level) - 1, true), |moves|, k, true)
                          && AiChoice(b, level) == Some(moves[k])
  {
    AiChoiceIsMinimax(b, level);
    var moves := ValidMoves(b, White);
    if moves != [] {
      var vals := Values(Engine, b, moves, Depth(level) - 1, true);
      var k := FirstBest(vals, |vals|, true);
      assert Minimax(Engine, b, Depth(level), true).move == Some(moves[k]);
    }
  }

  /** The Othello rule gives p no square at all. */
  ghost predicate CannotMove(b: Board, p: Player) {
    forall q: Square :: !Legal(b, q, p)
  }

  /** The list of legal moves is empty exactly when the rule gives p no square. */
  lemma CannotMoveIff(b: Board, p: Player)
    ensures CannotMove(b, p) <==> ValidMoves(b, p) == []
  {
    ValidMovesLegal(b, p);
    if ValidMoves(b, p) != [] {
      assert ValidMoves(b, p)[0] in ValidMoves(b, p);
    }
  }

  /** The AI's move obeys the Othello rule, and the AI passes only when the
      rule leaves white no move at all. */
  lemma AiChoiceLegal(b: Board, level: Level)
    ensures AiChoice(b, level).Some? ==> Legal(b, AiChoice(b, level).value, White)
    ensures AiChoice(b, level).None? <==> CannotMove(b, White)
  {
    CannotMoveIff(b, White);
    if AiChoice(b, level).Some? {
      IsValidMoveIff(b, AiChoice(b, level).value, White);
    }
  }

  // ---------------------------------------------------------------------
  // one run of the page script
  // ---------------------------------------------------------------------

  /** The session state: the board, whose turn it is, whether the AI's reply
      is due on the next run, and whether the game has been declared over. */
  datatype Session = Session(board: Board, current: Player, aiPending: bool, gameOver: bool)

  /** init_board: the starting position, black to move, nothing pending. The
      game starts level. */
  function NewGame(): (s: Session)
    ensures Count(s.board, Empty) == 60 && s.current == Black && !s.aiPending && !s.gameOver
    ensures Evaluate(s.board) == 0
  {
    Session(InitBoard(), Black, false, false)
  }

  /** What the user did before this run. A click reaches the script only from
      a square showing a legal black move; the others are disabled buttons. */
  datatype Input = NewGameClicked | SquareClicked(q: Square) | NoInput

  /** One run of the script. The new-game button resets everything. Otherwise
      a pending AI reply is played and the turn returns to black; otherwise a
      click on a legal square plays black's move and hands the turn to white;
      otherwise the run reaches the end of the page and declares the game over
      when neither side can move. */
  function Rerun(s: Session, level: Level, input: Input): (s': Session)
    ensures input.NewGameClicked? ==> s' == NewGame()
    ensures !input.NewGameClicked? && s.gameOver ==> s'.gameOver
    ensures !input.NewGameClicked? && s.aiPending ==> s'.current == Black && !s'.aiPending
    ensures !input.NewGameClicked? && !s.aiPending && s'.board != s.board ==> s'.current == White && s'.aiPending
  {
    if input.NewGameClicked? then NewGame()
    else if s.aiPending then
      s.(board := AiMove(s.board, level), aiPending := false, current := Black)
    else if input.SquareClicked? && input.q in ValidMoves(s.board, Black) then
      s.(board := MakeMove(s.board, input.q, Black).board, current := White, aiPending := true)
    else if ValidMoves(s.board, Black) == [] && ValidMoves(s.board, White) == [] then
      s.(gameOver := true)
    else s
  }

  /** Neither side has a move the Othello rule allows. */
  ghost predicate Stuck(b: Board) {
    CannotMove(b, Black) && CannotMove(b, White)
  }

  /** The game-over test of the page, read through the rule. */
  lemma StuckIff(b: Board)
    ensures Stuck(b) <==> ValidMoves(b, Black) == [] && ValidMoves(b, White) == []
  {
    CannotMoveIff(b, Black);
    CannotMoveIff(b, White);
  }

  /** What every run keeps true: the AI's reply is pending exactly when it is
      white's turn, and a finished game has no reply pending and no move left. */
  ghost predicate Consistent(s: Session) {
    && (s.aiPending <==> s.current == White)
    && (s.gameOver ==> !s.aiPending && Stuck(s.board))
  }

  lemma NewGameConsistent()
    ensures Consistent(NewGame())
  {
  }

  /** The opening position is playable: black may play (2, 3), capturing the
      white disc on (3, 3) against its own disc on (4, 3). */
  lemma OpeningMove()
    ensures Legal(InitBoard(), Pos(2, 3), Black)
    ensures !Stuck(InitBoard())
  {
    OpeningBracket();
    assert Legal(InitBoard(), Pos(2, 3), Black);
  }

  lemma OpeningBracket()
    ensures Brackets(InitBoard(), Pos(2, 3), Directions[6], Black, 1)
  {
    var b := InitBoard();
    var down := Directions[6];
    assert Ray(Pos(2, 3), down, 1) == Pos(3, 3) && Ray(Pos(2, 3), down, 2) == Pos(4, 3);
    assert forall j :: 1 <= j <= 1 ==> OwnedBy(b, Ray(Pos(2, 3), down, j), White);
  }

  lemma {:induction false} RerunConsistent(s: Session, level: Level, input: Input)
    requires Consistent(s)
    ensures Consistent(Rerun(s, level, input))
  {
    if input.NewGameClicked? {
      NewGameConsistent();
    } else if !s.aiPending {
      StuckIff(s.board);
    }
  }

  /** Once declared, the game is over for good: only the new-game button
      changes anything. */
  lemma GameOverFinal(s: Session, level: Level, input: Input)
    requires Consistent(s) && s.gameOver && !input.NewGameClicked?
    ensures Rerun(s, level, input) == s
  {
    StuckIff(s.board);
  }

  /** A run that reaches the end of the page declares the game over exactly
      when neither side has a legal move. */
  lemma GameOverIff(s: Session, level: Level)
    requires !s.aiPending
    ensures Rerun(s, level, NoInput).gameOver <==> s.gameOver || Stuck(s.board)
  {
    StuckIff(s.board);
  }

  /** A pending AI reply is the whole run: the AI's turn is played on the
      board, the turn returns to black and nothing else changes. */
  lemma AiReply(s: Session, level: Level, input: Input)
    requires s.aiPending && !input.NewGameClicked?
    ensures var s' := Rerun(s, level, input);
            && s'.board == AiMove(s.board, level)
            && s'.current == Black && !s'.aiPending && s'.gameOver == s.gameOver
  {
  }

  /** The human is never passed: while white could move but black cannot,
      every run short of a new game leaves the session exactly as it is. */
  lemma HumanStalls(s: Session, level: Level, input: Input)
    requires !s.aiPending && !input.NewGameClicked?
    requires CannotMove(s.board, Black) && !CannotMove(s.board, White)
    ensures Rerun(s, level, input) == s
  {
    CannotMoveIff(s.board, Black);
    CannotMoveIff(s.board, White);
  }

  /** A click plays black's move exactly when the Othello rule allows it there,
      and then hands the turn to the AI. */
  lemma HumanMove(s: Session, level: Level, q: Square)
    requires !s.aiPending
    ensures var s' := Rerun(s, level, SquareClicked(q));
            Legal(s.board, q, Black) ==>
              s'.board == MakeMove(s.board, q, Black).board && s'.current == White && s'.aiPending
    ensures !Legal(s.board, q, Black) ==> Rerun(s, level, SquareClicked(q)).board == s.board
  {
    IsValidMoveIff(s.board, q, Black);
    ClickPlays(s, level, q);
  }

  lemma ClickPlays(s: Session, level: Level, q: Square)
    requires !s.aiPending
    ensures var s' := Rerun(s, level, SquareClicked(q));
            IsValidMove(s.board, q, Black) ==>
              s'.board == MakeMove(s.board, q, Black).board && s'.current == White && s'.aiPending
    ensures !IsValidMove(s.board, q, Black) ==> Rerun(s, level, SquareClicked(q)).board == s.board
  {
  }

  /** Each run that is not a new game either leaves the board alone or plays
      one legal move, which fills exactly one empty square. */
  lemma RerunFillsOneSquare(s: Session, level: Level, input: Input)
    requires !input.NewGameClicked?
    ensures var b' := Rerun(s, level, input).board;
            b' == s.board || Count(b', Empty) == Count(s.board, Empty) - 1
  {
    var b := s.board;
    if s.aiPending {
      var m := AiChoice(b, level);
      if m.Some? {
        MoveFillsOneSquare(b, m.value, White);
      }
    } else if input.SquareClicked? {
      MoveFillsOneSquare(b, input.q, Black);
    }
  }

  /** make_move either refuses or fills exactly one empty square. */
  lemma MoveFillsOneSquare(b: Board, q: Square, p: Player)
    ensures var b' := MakeMove(b, q, p).board;
            b' == b || Count(b', Empty) == Count(b, Empty) - 1
  {
    IsValidMoveIff(b, q, p);
    if IsValidMove(b, q, p) {
      MakeMoveCounts(b, q, p);
    }
  }

  // ---------------------------------------------------------------------
  // the verdict
  // ---------------------------------------------------------------------

  datatype Outcome = HumanWins | AiWins | Draw

  /** The verdict shown once the game is over: the side with more discs wins,
      so the verdict is the sign of the AI's own evaluation. */
  function Winner(b: Board): (w: Outcome)
    ensures w == AiWins <==> Evaluate(b) > 0
    ensures w == HumanWins <==> Evaluate(b) < 0
    ensures w == Draw <==> Evaluate(b) == 0
  {
    var black := Count(b, Black);
    var white := Count(b, White);
    if black > white then HumanWins else if white > black then AiWins else Draw
  }
}
