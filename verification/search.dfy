/** The AI's search of app.py: depth-limited minimax with alpha-beta pruning
    (minimax). White, the AI, maximises; black minimises. The search is
    written over the three things it asks of the rules (the list of moves,
    the position a move leads to and the score of a position), which the
    Othello module supplies. The floating-point infinities of the source
    become the integer sentinels NegInf and PosInf, which lie outside the
    range every score falls in. */
module Search {
  import opened Grid

  datatype Option<T> = None | Some(value: T)

  /** What the search needs from the game: the moves a side may make, in the
      order they are tried, the board after a move, and the score of a board
      from white's point of view. */
  datatype Game = Game(moves: (Board, Player) -> seq<Square>,
                       play: (Board, Square, Player) -> Board,
                       score: Board -> int)

  /** Every score lies in [-64, 64], strictly between the sentinels. */
  ghost predicate ScoreBounded(g: Game) {
    forall b: Board :: -64 <= g.score(b) <= 64
  }

  /** What a search returns: a value and, when a move was searched, the
      move it recommends. */
  datatype Choice = Choice(value: int, move: Option<Square>)

  /** Stand-ins for float('-inf') and float('inf'). */
  const NegInf: int := -65
  const PosInf: int := 65

  function Max(x: int, y: int): int {
    if x >= y then x else y
  }

  function Min(x: int, y: int): int {
    if x <= y then x else y
  }

  /** The side to move at a maximising (white) or minimising (black) node. */
  function Mover(maximizing: bool): Player {
    if maximizing then White else Black
  }

  // ---------------------------------------------------------------------
  // minimax as app.py runs it
  // ---------------------------------------------------------------------

  /** minimax(depth, maximizing, alpha, beta): a leaf (depth 0, or the side
      to move has no move) is scored and has no move; otherwise the moves
      are tried in order and the best one found is returned. */
  function AlphaBeta(g: Game, b: Board, depth: nat, maximizing: bool, alpha: int, beta: int): (c: Choice)
    requires ScoreBounded(g)
    ensures -64 <= c.value <= 64
    ensures c.move.None? <==> depth == 0 || g.moves(b, Mover(maximizing)) == []
    ensures c.move.None? ==> c.value == g.score(b)
    ensures c.move.Some? ==> c.move.value in g.moves(b, Mover(maximizing))
    decreases depth, 1, 0
  {
    if depth == 0 then Choice(g.score(b), None)
    else
      var moves := g.moves(b, Mover(maximizing));
      if moves == [] then Choice(g.score(b), None)
      else if maximizing then MaxLoop(g, b, moves, 0, depth, alpha, beta, NegInf, None)
      else MinLoop(g, b, moves, 0, depth, alpha, beta, PosInf, None)
  }

  /** The maximising loop from move i on: best only improves on a strictly
      greater value, alpha is raised to every value seen, and the loop stops
      once beta <= alpha. */
  function MaxLoop(g: Game, b: Board, moves: seq<Square>, i: nat, depth: nat, alpha: int, beta: int,
                   best: int, bestMove: Option<Square>): (c: Choice)
    requires ScoreBounded(g)
    requires 0 < |moves| && i <= |moves| && 1 <= depth
    requires i == 0 ==> best == NegInf && bestMove == None
    requires i > 0 ==> -64 <= best <= 64 && bestMove.Some? && bestMove.value in moves
    ensures -64 <= c.value <= 64
    ensures c.move.Some? && c.move.value in moves
    decreases depth, 0, |moves| - i
  {
    if i == |moves| then Choice(best, bestMove)
    else
      var val := AlphaBeta(g, g.play(b, moves[i], White), depth - 1, false, alpha, beta).value;
      var best', bestMove' := if val > best then val else best, if val > best then Some(moves[i]) else bestMove;
      var alpha' := Max(alpha, val);
      if beta <= alpha' then Choice(best', bestMove')
      else MaxLoop(g, b, moves, i + 1, depth, alpha', beta, best', bestMove')
  }

  /** The minimising loop: the mirror image of MaxLoop, lowering beta. */
  function MinLoop(g: Game, b: Board, moves: seq<Square>, i: nat, depth: nat, alpha: int, beta: int,
                   best: int, bestMove: Option<Square>): (c: Choice)
    requires ScoreBounded(g)
    requires 0 < |moves| && i <= |moves| && 1 <= depth
    requires i == 0 ==> best == PosInf && bestMove == None
    requires i > 0 ==> -64 <= best <= 64 && bestMove.Some? && bestMove.value in moves
    ensures -64 <= c.value <= 64
    ensures c.move.Some? && c.move.value in moves
    decreases depth, 0, |moves| - i
  {
    if i == |moves| then Choice(best, bestMove)
    else
      var val := AlphaBeta(g, g.play(b, moves[i], Black), depth - 1, true, alpha, beta).value;
      var best', bestMove' := if val < best then val else best, if val < best then Some(moves[i]) else bestMove;
      var beta' := Min(beta, val);
      if beta' <= alpha then Choice(best', bestMove')
      else MinLoop(g, b, moves, i + 1, depth, alpha, beta', best', bestMove')
  }

  // ---------------------------------------------------------------------
  // The reference: plain minimax, no pruning
  // ---------------------------------------------------------------------

  /** x is strictly better than y for the side that maximises or minimises. */
  predicate Beats(maximizing: bool, x: int, y: int) {
    if maximizing then x > y else x < y
  }

  /** Among the first n entries, vals[k] is optimal and is the first optimal
      one: nothing there beats it, and it beats everything before it. */
  predicate IsFirstBest(vals: seq<int>, n: int, k: int, maximizing: bool)
    requires n <= |vals|
  {
    && 0 <= k < n
    && (forall j :: 0 <= j < n ==> !Beats(maximizing, vals[j], vals[k]))
    && (forall j :: 0 <= j < k ==> Beats(maximizing, vals[k], vals[j]))
  }

  /** The position of the first optimal value among the first n. */
  function FirstBest(vals: seq<int>, n: nat, maximizing: bool): (k: nat)
    requires 0 < n <= |vals|
    ensures IsFirstBest(vals, n, k, maximizing)
  {
    if n == 1 then 0
    else
      var k := FirstBest(vals, n - 1, maximizing);
      if Beats(maximizing, vals[n - 1], vals[k]) then n - 1 else k
  }

  /** Only one entry can be the first optimal one. */
  lemma FirstBestUnique(vals: seq<int>, n: nat, j: int, k: int, maximizing: bool)
    requires n <= |vals|
    requires IsFirstBest(vals, n, j, maximizing) && IsFirstBest(vals, n, k, maximizing)
    ensures j == k
  {
    if j < k {
      NotFirstBest(vals, n, j, k, maximizing);
      assert false;
    } else if k < j {
      NotFirstBest(vals, n, k, j, maximizing);
      assert false;
    }
  }

  /** An entry before the first optimal one is not the first optimal one. */
  lemma NotFirstBest(vals: seq<int>, n: nat, j: int, k: int, maximizing: bool)
    requires n <= |vals|
    requires IsFirstBest(vals, n, k, maximizing) && 0 <= j < k
    ensures !IsFirstBest(vals, n, j, maximizing)
  {
    assert Beats(maximizing, vals[k], vals[j]);
  }

  /** The game-tree value of b searched to the given depth, with the first
      optimal move in the order the moves are listed. */
  function Minimax(g: Game, b: Board, depth: nat, maximizing: bool): (c: Choice)
    requires ScoreBounded(g)
    ensures -64 <= c.value <= 64
    decreases depth, 1
  {
    if depth == 0 then Choice(g.score(b), None)
    else
      var moves := g.moves(b, Mover(maximizing));
      if moves == [] then Choice(g.score(b), None)
      else
        var vals := Values(g, b, moves, depth - 1, maximizing);
        var k := FirstBest(vals, |vals|, maximizing);
        Choice(vals[k], Some(moves[k]))
  }

  /** The minimax values of the positions the moves lead to. */
  function Values(g: Game, b: Board, moves: seq<Square>, depth: nat, maximizing: bool): (vals: seq<int>)
    requires ScoreBounded(g)
    ensures |vals| == |moves|
    ensures forall j :: 0 <= j < |vals| ==> -64 <= vals[j] <= 64
    decreases depth + 1, 0, |moves|
  {
    if moves == [] then []
    else
      var v := Minimax(g, g.play(b, moves[0], Mover(maximizing)), depth, !maximizing).value;
      var rest := Values(g, b, moves[1..], depth, maximizing);
      var vals := [v] + rest;
      assert forall j :: 0 <= j < |vals| ==> -64 <= vals[j] <= 64 by {
        forall j | 0 <= j < |vals|
          ensures -64 <= vals[j] <= 64
        {
          if j > 0 {
            assert vals[j] == rest[j - 1];
          }
        }
      }
      vals
  }

  /** Entry j of Values is the minimax value of the position after move j. */
  lemma {:induction false} ValuesAt(g: Game, b: Board, moves: seq<Square>, depth: nat, maximizing: bool, j: nat)
    requires ScoreBounded(g)
    requires j < |moves|
    ensures Values(g, b, moves, depth, maximizing)[j]
            == Minimax(g, g.play(b, moves[j], Mover(maximizing)), depth, !maximizing).value
  {
    if j > 0 {
      ValuesAt(g, b, moves[1..], depth, maximizing, j - 1);
      assert moves[1..][j - 1] == moves[j];
    }
  }

  // ---------------------------------------------------------------------
  // What the pruning preserves
  // ---------------------------------------------------------------------

  /** The fail-soft guarantee of a search in the window (alpha, beta) whose
      exact value is f and which returned m: a value at or below alpha is
      reported as an upper bound no higher than alpha, a value inside the
      window exactly, and a value at or above beta as a lower bound no lower
      than beta. */
  predicate Bounds(f: int, m: int, alpha: int, beta: int) {
    && (f <= alpha ==> f <= m <= alpha)
    && (alpha < f < beta ==> m == f)
    && (beta <= f ==> beta <= m <= f)
  }

  /** minimax with a window inside the sentinels is fail-soft with respect to
      the unpruned minimax value. */
  lemma {:induction false} AlphaBetaBounds(g: Game, b: Board, depth: nat, maximizing: bool, alpha: int, beta: int)
    requires ScoreBounded(g)
    requires NegInf <= alpha < beta <= PosInf
    ensures Bounds(Minimax(g, b, depth, maximizing).value, AlphaBeta(g, b, depth, maximizing, alpha, beta).value, alpha, beta)
    decreases depth, 1
  {
    if depth > 0 {
      var moves := g.moves(b, Mover(maximizing));
      if moves != [] {
        var vals := Values(g, b, moves, depth - 1, maximizing);
        var k := FirstBest(vals, |vals|, maximizing);
        if maximizing {
          MaxLoopBounds(g, b, moves, vals, k, 0, depth, alpha, beta, alpha, NegInf, None);
        } else {
          MinLoopBounds(g, b, moves, vals, k, 0, depth, alpha, beta, beta, PosInf, None);
        }
      }
    }
  }

  /** The search of the position after move i is fail-soft with respect to
      its entry in Values. */
  lemma ChildBounds(g: Game, b: Board, moves: seq<Square>, vals: seq<int>, i: nat, depth: nat, maximizing: bool,
                    alpha: int, beta: int)
    requires ScoreBounded(g)
    requires i < |moves| && 1 <= depth
    requires vals == Values(g, b, moves, depth - 1, maximizing)
    requires NegInf <= alpha < beta <= PosInf
    ensures -64 <= vals[i] <= 64
    ensures Bounds(vals[i], AlphaBeta(g, g.play(b, moves[i], Mover(maximizing)), depth - 1, !maximizing, alpha, beta).value,
                   alpha, beta)
    decreases depth, 0, 0, 0
  {
    AlphaBetaBounds(g, g.play(b, moves[i], Mover(maximizing)), depth - 1, !maximizing, alpha, beta);
    ValuesAt(g, b, moves, depth - 1, maximizing, i);
  }

  /** The maximising loop keeps: alpha is the larger of the initial alpha and
      best; every value searched so far is at most best; and a best above the
      initial alpha is exact, the true value of one of the moves searched. */
  lemma {:induction false} MaxLoopBounds(g: Game, b: Board, moves: seq<Square>, vals: seq<int>, kf: nat, i: nat,
                                         depth: nat, alpha0: int, beta: int, alpha: int, best: int,
                                         bestMove: Option<Square>)
    requires ScoreBounded(g)
    requires 0 < |moves| && i <= |moves| && 1 <= depth
    requires vals == Values(g, b, moves, depth - 1, true)
    requires IsFirstBest(vals, |vals|, kf, true)
    requires NegInf <= alpha0 < beta <= PosInf
    requires i == 0 ==> best == NegInf && bestMove == None
    requires i > 0 ==> -64 <= best <= 64 && bestMove.Some? && bestMove.value in moves
    requires alpha == Max(alpha0, best) && alpha < beta
    requires forall j :: 0 <= j < i ==> vals[j] <= best
    requires alpha0 < best ==> exists j :: 0 <= j < i && vals[j] == best
    ensures Bounds(vals[kf], MaxLoop(g, b, moves, i, depth, alpha, beta, best, bestMove).value, alpha0, beta)
    decreases depth, 0, |moves| - i, 2
  {
    var f := vals[kf];
    var c := MaxLoop(g, b, moves, i, depth, alpha, beta, best, bestMove);
    if i == |moves| {
      assert c.value == best;
      assert f <= best;
      if alpha0 < best {
        var j :| 0 <= j < i && vals[j] == best;
        assert best <= f;
      }
      FinalBounds(f, best, alpha0, beta, true);
    } else {
      MaxLoopStep(g, b, moves, vals, kf, i, depth, alpha0, beta, alpha, best, bestMove);
    }
  }

  /** One iteration of the maximising loop: the child search is fail-soft, so
      the loop facts carry over to the next move or the cut-off is justified. */
  lemma {:induction false} MaxLoopStep(g: Game, b: Board, moves: seq<Square>, vals: seq<int>, kf: nat, i: nat,
                                       depth: nat, alpha0: int, beta: int, alpha: int, best: int,
                                       bestMove: Option<Square>)
    requires ScoreBounded(g)
    requires 0 < |moves| && i < |moves| && 1 <= depth
    requires vals == Values(g, b, moves, depth - 1, true)
    requires IsFirstBest(vals, |vals|, kf, true)
    requires NegInf <= alpha0 < beta <= PosInf
    requires i == 0 ==> best == NegInf && bestMove == None
    requires i > 0 ==> -64 <= best <= 64 && bestMove.Some? && bestMove.value in moves
    requires alpha == Max(alpha0, best) && alpha < beta
    requires forall j :: 0 <= j < i ==> vals[j] <= best
    requires alpha0 < best ==> exists j :: 0 <= j < i && vals[j] == best
    ensures Bounds(vals[kf], MaxLoop(g, b, moves, i, depth, alpha, beta, best, bestMove).value, alpha0, beta)
    decreases depth, 0, |moves| - i, 1
  {
    var f := vals[kf];
    var c := MaxLoop(g, b, moves, i, depth, alpha, beta, best, bestMove);
    var m := AlphaBeta(g, g.play(b, moves[i], White), depth - 1, false, alpha, beta).value;
    ChildBounds(g, b, moves, vals, i, depth, true, alpha, beta);
    var fi := vals[i];
    assert fi <= f;
    var best' := if m > best then m else best;
    var bestMove' := if m > best then Some(moves[i]) else bestMove;
    var alpha' := Max(alpha, m);
    MaxStep(fi, m, alpha0, alpha, beta, best);
    if alpha' < beta {
      assert forall j :: 0 <= j < i + 1 ==> vals[j] <= best';
      if alpha0 < best' {
        if best' == best {
          var j :| 0 <= j < i && vals[j] == best;
          assert vals[j] == best';
        } else {
          assert vals[i] == best';
        }
      }
      MaxLoopBounds(g, b, moves, vals, kf, i + 1, depth, alpha0, beta, alpha', best', bestMove');
      assert c == MaxLoop(g, b, moves, i + 1, depth, alpha', beta, best', bestMove');
    } else {
      assert c.value == best';
      CutBounds(f, best', alpha0, beta, true);
    }
  }

  /** The value a finished loop reports: best is at least every searched
      value, and exact when it passed the bound the side improves. */
  lemma FinalBounds(f: int, best: int, alpha: int, beta: int, maximizing: bool)
    requires alpha < beta
    requires maximizing ==> f <= best && (alpha < best ==> best <= f) && best < beta
    requires !maximizing ==> best <= f && (best < beta ==> f <= best) && alpha < best
    ensures Bounds(f, best, alpha, beta)
  {
  }

  /** The value a loop reports when it is cut off. */
  lemma CutBounds(f: int, best: int, alpha: int, beta: int, maximizing: bool)
    requires alpha < beta
    requires maximizing ==> beta <= best <= f
    requires !maximizing ==> f <= best <= alpha
    ensures Bounds(f, best, alpha, beta)
  {
  }

  /** One step of the maximising loop, on values alone. */
  lemma MaxStep(fi: int, m: int, alpha0: int, alpha: int, beta: int, best: int)
    requires Bounds(fi, m, alpha, beta) && alpha == Max(alpha0, best) && alpha < beta
    ensures var best' := if m > best then m else best;
            && Max(alpha, m) == Max(alpha0, best')
            && (Max(alpha, m) < beta ==> fi <= best' && (alpha0 < best' && best' != best ==> best' == fi))
            && (beta <= Max(alpha, m) ==> beta <= best' <= fi)
  {
  }

  /** The minimising loop keeps the mirror image of MaxLoopBounds' facts,
      with beta lowered instead of alpha raised. */
  lemma {:induction false} MinLoopBounds(g: Game, b: Board, moves: seq<Square>, vals: seq<int>, kf: nat, i: nat,
                                         depth: nat, alpha: int, beta0: int, beta: int, best: int,
                                         bestMove: Option<Square>)
    requires ScoreBounded(g)
    requires 0 < |moves| && i <= |moves| && 1 <= depth
    requires vals == Values(g, b, moves, depth - 1, false)
    requires IsFirstBest(vals, |vals|, kf, false)
    requires NegInf <= alpha < beta0 <= PosInf
    requires i == 0 ==> best == PosInf && bestMove == None
    requires i > 0 ==> -64 <= best <= 64 && bestMove.Some? && bestMove.value in moves
    requires beta == Min(beta0, best) && alpha < beta
    requires forall j :: 0 <= j < i ==> vals[j] >= best
    requires best < beta0 ==> exists j :: 0 <= j < i && vals[j] == best
    ensures Bounds(vals[kf], MinLoop(g, b, moves, i, depth, alpha, beta, best, bestMove).value, alpha, beta0)
    decreases depth, 0, |moves| - i, 2
  {
    var f := vals[kf];
    var c := MinLoop(g, b, moves, i, depth, alpha, beta, best, bestMove);
    if i == |moves| {
      assert c.value == best;
      assert best <= f;
      if best < beta0 {
        var j :| 0 <= j < i && vals[j] == best;
        assert f <= best;
      }
      FinalBounds(f, best, alpha, beta0, false);
    } else {
      MinLoopStep(g, b, moves, vals, kf, i, depth, alpha, beta0, beta, best, bestMove);
    }
  }

  /** One iteration of the minimising loop: the child search is fail-soft, so
      the loop facts carry over to the next move or the cut-off is justified. */
  lemma {:induction false} MinLoopStep(g: Game, b: Board, moves: seq<Square>, vals: seq<int>, kf: nat, i: nat,
                                       depth: nat, alpha: int, beta0: int, beta: int, best: int,
                                       bestMove: Option<Square>)
    requires ScoreBounded(g)
    requires 0 < |moves| && i < |moves| && 1 <= depth
    requires vals == Values(g, b, moves, depth - 1, false)
    requires IsFirstBest(vals, |vals|, kf, false)
    requires NegInf <= alpha < beta0 <= PosInf
    requires i == 0 ==> best == PosInf && bestMove == None
    requires i > 0 ==> -64 <= best <= 64 && bestMove.Some? && bestMove.value in moves
    requires beta == Min(beta0, best) && alpha < beta
    requires forall j :: 0 <= j < i ==> vals[j] >= best
    requires best < beta0 ==> exists j :: 0 <= j < i && vals[j] == best
    ensures Bounds(vals[kf], MinLoop(g, b, moves, i, depth, alpha, beta, best, bestMove).value, alpha, beta0)
    decreases depth, 0, |moves| - i, 1
  {
    var f := vals[kf];
    var c := MinLoop(g, b, moves, i, depth, alpha, beta, best, bestMove);
    var m := AlphaBeta(g, g.play(b, moves[i], Black), depth - 1, true, alpha, beta).value;
    ChildBounds(g, b, moves, vals, i, depth, false, alpha, beta);
    var fi := vals[i];
    assert fi >= f;
    var best' := if m < best then m else best;
    var bestMove' := if m < best then Some(moves[i]) else bestMove;
    var beta' := Min(beta, m);
    MinStep(fi, m, beta0, alpha, beta, best);
    if alpha < beta' {
      assert forall j :: 0 <= j < i + 1 ==> vals[j] >= best';
      if best' < beta0 {
        if best' == best {
          var j :| 0 <= j < i && vals[j] == best;
          assert vals[j] == best';
        } else {
          assert vals[i] == best';
        }
      }
      MinLoopBounds(g, b, moves, vals, kf, i + 1, depth, alpha, beta0, beta', best', bestMove');
      assert c == MinLoop(g, b, moves, i + 1, depth, alpha, beta', best', bestMove');
    } else {
      assert c.value == best';
      CutBounds(f, best', alpha, beta0, false);
    }
  }

  /** One step of the minimising loop, on values alone. */
  lemma MinStep(fi: int, m: int, beta0: int, alpha: int, beta: int, best: int)
    requires Bounds(fi, m, alpha, beta) && beta == Min(beta0, best) && alpha < beta
    ensures var best' := if m < best then m else best;
            && Min(beta, m) == Min(beta0, best')
            && (alpha < Min(beta, m) ==> fi >= best' && (best' < beta0 && best' != best ==> best' == fi))
            && (Min(beta, m) <= alpha ==> fi <= best' <= alpha)
  {
  }

  /** At the top, with the full window (NegInf, PosInf) app.py starts from,
      the pruned search returns exactly what plain minimax returns: the same
      value and the same move, the first optimal one in move order. */
  lemma {:induction false} AlphaBetaRoot(g: Game, b: Board, depth: nat, maximizing: bool)
    requires ScoreBounded(g)
    ensures AlphaBeta(g, b, depth, maximizing, NegInf, PosInf) == Minimax(g, b, depth, maximizing)
  {
    if depth > 0 {
      var moves := g.moves(b, Mover(maximizing));
      if moves != [] {
        var vals := Values(g, b, moves, depth - 1, maximizing);
        if maximizing {
          MaxLoopRoot(g, b, moves, vals, 0, depth, NegInf, NegInf, None, 0);
        } else {
          MinLoopRoot(g, b, moves, vals, 0, depth, PosInf, PosInf, None, 0);
        }
      }
    }
  }

  /** The top-level maximising loop: alpha equals best, and best is the
      first optimal value among the moves searched so far. */
  lemma {:induction false} MaxLoopRoot(g: Game, b: Board, moves: seq<Square>, vals: seq<int>, i: nat, depth: nat,
                                       alpha: int, best: int, bestMove: Option<Square>, k: nat)
    requires ScoreBounded(g)
    requires 0 < |moves| && i <= |moves| && 1 <= depth
    requires vals == Values(g, b, moves, depth - 1, true)
    requires i == 0 ==> best == NegInf && bestMove == None && alpha == NegInf
    requires i > 0 ==> IsFirstBest(vals, i, k, true) && best == vals[k] && bestMove == Some(moves[k]) && alpha == best
    ensures var kf := FirstBest(vals, |vals|, true);
            MaxLoop(g, b, moves, i, depth, alpha, PosInf, best, bestMove) == Choice(vals[kf], Some(moves[kf]))
    decreases |moves| - i, 1
  {
    if i == |moves| {
      FirstBestUnique(vals, |vals|, k, FirstBest(vals, |vals|, true), true);
    } else {
      MaxLoopRootStep(g, b, moves, vals, i, depth, alpha, best, bestMove, k);
    }
  }

  /** One iteration of the top-level maximising loop: a child that beats best
      is searched exactly and becomes the new first optimum; any other child
      leaves best alone. */
  lemma {:induction false} MaxLoopRootStep(g: Game, b: Board, moves: seq<Square>, vals: seq<int>, i: nat, depth: nat,
                                           alpha: int, best: int, bestMove: Option<Square>, k: nat)
    requires ScoreBounded(g)
    requires 0 < |moves| && i < |moves| && 1 <= depth
    requires vals == Values(g, b, moves, depth - 1, true)
    requires i == 0 ==> best == NegInf && bestMove == None && alpha == NegInf
    requires i > 0 ==> IsFirstBest(vals, i, k, true) && best == vals[k] && bestMove == Some(moves[k]) && alpha == best
    ensures var kf := FirstBest(vals, |vals|, true);
            MaxLoop(g, b, moves, i, depth, alpha, PosInf, best, bestMove) == Choice(vals[kf], Some(moves[kf]))
    decreases |moves| - i, 0
  {
    var c := MaxLoop(g, b, moves, i, depth, alpha, PosInf, best, bestMove);
    var m := AlphaBeta(g, g.play(b, moves[i], White), depth - 1, false, alpha, PosInf).value;
    ChildBounds(g, b, moves, vals, i, depth, true, alpha, PosInf);
    RootStep(vals[i], m, alpha, best, true);
    if m > best {
      NewFirstBest(vals, i, k, true);
      MaxLoopRoot(g, b, moves, vals, i + 1, depth, m, m, Some(moves[i]), i);
      assert c == MaxLoop(g, b, moves, i + 1, depth, m, PosInf, m, Some(moves[i]));
    } else {
      KeepFirstBest(vals, i, k, true);
      MaxLoopRoot(g, b, moves, vals, i + 1, depth, alpha, best, bestMove, k);
      assert c == MaxLoop(g, b, moves, i + 1, depth, alpha, PosInf, best, bestMove);
    }
  }

  /** The top-level minimising loop: beta equals best, and best is the first
      optimal value among the moves searched so far. */
  lemma {:induction false} MinLoopRoot(g: Game, b: Board, moves: seq<Square>, vals: seq<int>, i: nat, depth: nat,
                                       beta: int, best: int, bestMove: Option<Square>, k: nat)
    requires ScoreBounded(g)
    requires 0 < |moves| && i <= |moves| && 1 <= depth
    requires vals == Values(g, b, moves, depth - 1, false)
    requires i == 0 ==> best == PosInf && bestMove == None && beta == PosInf
    requires i > 0 ==> IsFirstBest(vals, i, k, false) && best == vals[k] && bestMove == Some(moves[k]) && beta == best
    ensures var kf := FirstBest(vals, |vals|, false);
            MinLoop(g, b, moves, i, depth, NegInf, beta, best, bestMove) == Choice(vals[kf], Some(moves[kf]))
    decreases |moves| - i, 1
  {
    if i == |moves| {
      FirstBestUnique(vals, |vals|, k, FirstBest(vals, |vals|, false), false);
    } else {
      MinLoopRootStep(g, b, moves, vals, i, depth, beta, best, bestMove, k);
    }
  }

  /** One iteration of the top-level minimising loop: a child that beats best
      is searched exactly and becomes the new first optimum; any other child
      leaves best alone. */
  lemma {:induction false} MinLoopRootStep(g: Game, b: Board, moves: seq<Square>, vals: seq<int>, i: nat, depth: nat,
                                           beta: int, best: int, bestMove: Option<Square>, k: nat)
    requires ScoreBounded(g)
    requires 0 < |moves| && i < |moves| && 1 <= depth
    requires vals == Values(g, b, moves, depth - 1, false)
    requires i == 0 ==> best == PosInf && bestMove == None && beta == PosInf
    requires i > 0 ==> IsFirstBest(vals, i, k, false) && best == vals[k] && bestMove == Some(moves[k]) && beta == best
    ensures var kf := FirstBest(vals, |vals|, false);
            MinLoop(g, b, moves, i, depth, NegInf, beta, best, bestMove) == Choice(vals[kf], Some(moves[kf]))
    decreases |moves| - i, 0
  {
    var c := MinLoop(g, b, moves, i, depth, NegInf, beta, best, bestMove);
    var m := AlphaBeta(g, g.play(b, moves[i], Black), depth - 1, true, NegInf, beta).value;
    ChildBounds(g, b, moves, vals, i, depth, false, NegInf, beta);
    RootStep(vals[i], m, beta, best, false);
    if m < best {
      NewFirstBest(vals, i, k, false);
      MinLoopRoot(g, b, moves, vals, i + 1, depth, m, m, Some(moves[i]), i);
      assert c == MinLoop(g, b, moves, i + 1, depth, NegInf, m, m, Some(moves[i]));
    } else {
      KeepFirstBest(vals, i, k, false);
      MinLoopRoot(g, b, moves, vals, i + 1, depth, beta, best, bestMove, k);
      assert c == MinLoop(g, b, moves, i + 1, depth, NegInf, beta, best, bestMove);
    }
  }

  /** One top-level step on values alone: with the window bound equal to
      best (the sentinel before the first move), a child that beats
      best was searched exactly, and one that does not is no better than
      best; the window never closes. */
  lemma RootStep(fi: int, m: int, bound: int, best: int, maximizing: bool)
    requires -64 <= fi <= 64 && -64 <= m <= 64
    requires maximizing ==> Bounds(fi, m, bound, PosInf) && bound == best < PosInf
    requires !maximizing ==> Bounds(fi, m, NegInf, bound) && NegInf < bound == best
    ensures Beats(maximizing, m, best) ==> m == fi
    ensures !Beats(maximizing, m, best) ==> !Beats(maximizing, fi, best)
    ensures maximizing ==> Max(bound, m) < PosInf
    ensures !maximizing ==> NegInf < Min(bound, m)
  {
  }

  /** A new entry that beats the first optimum so far is the new first
      optimum; the first entry is the first optimum of a one-entry prefix. */
  lemma NewFirstBest(vals: seq<int>, i: nat, k: nat, maximizing: bool)
    requires i < |vals|
    requires i > 0 ==> IsFirstBest(vals, i, k, maximizing) && Beats(maximizing, vals[i], vals[k])
    ensures IsFirstBest(vals, i + 1, i, maximizing)
  {
  }

  /** A new entry that does not beat the first optimum so far leaves it. */
  lemma KeepFirstBest(vals: seq<int>, i: nat, k: nat, maximizing: bool)
    requires i < |vals|
    requires IsFirstBest(vals, i, k, maximizing) && !Beats(maximizing, vals[i], vals[k])
    ensures IsFirstBest(vals, i + 1, k, maximizing)
  {
  }
}
