/** The Othello rules of app.py: the eight-direction ray walk, move legality
    (is_valid_move), the row-major list of legal moves (get_valid_moves) and
    move application with disc flipping (make_move). */
module Rules {
  import opened Grid

  /** One of the eight compass steps. */
  datatype Dir = Dir(dr: int, dc: int)
  type Direction = d: Dir | -1 <= d.dr <= 1 && -1 <= d.dc <= 1 && (d.dr != 0 || d.dc != 0)
    witness Dir(0, 1)

  /** The directions in the order app.py tries them. */
  const Directions: seq<Direction> :=
    [Dir(-1, -1), Dir(-1, 0), Dir(-1, 1), Dir(0, -1), Dir(0, 1), Dir(1, -1), Dir(1, 0), Dir(1, 1)]

  /** x moved j steps of sign dx. */
  function Shift(x: int, dx: int, j: int): int {
    if dx == 0 then x else if dx > 0 then x + j else x - j
  }

  /** The point j steps from q in direction d. */
  function Ray(q: Pos, d: Direction, j: int): Pos {
    Pos(Shift(q.row, d.dr, j), Shift(q.col, d.dc, j))
  }

  /** One step of the walk: r += dr, c += dc. */
  function Next(q: Pos, d: Direction): Pos {
    Pos(q.row + d.dr, q.col + d.dc)
  }

  function Gap(x: int): nat {
    if x > 0 then x else 0
  }

  /** Steps left before a walk from q in direction d leaves the board. */
  function Room(q: Pos, d: Direction): nat {
    (if d.dr > 0 then Gap(8 - q.row) else if d.dr < 0 then Gap(q.row + 1) else 0)
    + (if d.dc > 0 then Gap(8 - q.col) else if d.dc < 0 then Gap(q.col + 1) else 0)
  }

  /** The walk over p's opponent's discs that starts at q and heads in
      direction d: exactly the maximal run of opponent squares from q. */
  function Run(b: Board, q: Pos, d: Direction, p: Player): (run: seq<Square>)
    ensures forall i :: 0 <= i < |run| ==> run[i] == Ray(q, d, i) && At(b, run[i]) == Opponent(p)
    ensures !OwnedBy(b, Ray(q, d, |run|), Opponent(p))
    decreases Room(q, d)
  {
    if OwnedBy(b, q, Opponent(p)) then
      RoomShrinks(q, d);
      var rest := Run(b, Next(q, d), d, p);
      RunCons(b, q, d, p, rest);
      [q] + rest
    else
      []
  }

  /** An opponent disc on q followed by the run from the next square is the
      run from q. */
  lemma RunCons(b: Board, q: Pos, d: Direction, p: Player, rest: seq<Square>)
    requires OwnedBy(b, q, Opponent(p))
    requires forall i :: 0 <= i < |rest| ==> rest[i] == Ray(Next(q, d), d, i) && At(b, rest[i]) == Opponent(p)
    requires !OwnedBy(b, Ray(Next(q, d), d, |rest|), Opponent(p))
    ensures forall i :: 0 <= i < |[q] + rest| ==> ([q] + rest)[i] == Ray(q, d, i) && At(b, ([q] + rest)[i]) == Opponent(p)
    ensures !OwnedBy(b, Ray(q, d, |[q] + rest|), Opponent(p))
  {
    var run := [q] + rest;
    RayNext(q, d, |rest|);
    forall i | 0 <= i < |run|
      ensures run[i] == Ray(q, d, i) && At(b, run[i]) == Opponent(p)
    {
      if i > 0 {
        assert run[i] == rest[i - 1];
        RayNext(q, d, i - 1);
      }
    }
  }

  /** A step from a square on the board brings the edge one step closer. */
  lemma RoomShrinks(q: Pos, d: Direction)
    requires InBounds(q)
    ensures Room(Next(q, d), d) < Room(q, d)
  {
  }

  /** The opponent run next to q in direction d. */
  function DirRun(b: Board, q: Square, d: Direction, p: Player): seq<Square> {
    Run(b, Next(q, d), d, p)
  }

  /** A disc of p on q captures in direction d: the run is non-empty and the
      square just past it is on the board and holds p. */
  predicate Captures(b: Board, q: Square, d: Direction, p: Player) {
    var run := DirRun(b, q, d, p);
    |run| > 0 && OwnedBy(b, Ray(Next(q, d), d, |run|), p)
  }

  /** Some direction from index i on captures (the loop over dirs). */
  predicate AnyCaptures(b: Board, q: Square, p: Player, i: nat)
    requires i <= 8
    decreases 8 - i
  {
    i < 8 && (Captures(b, q, Directions[i], p) || AnyCaptures(b, q, p, i + 1))
  }

  /** is_valid_move: an occupied square is refused outright; an empty one is
      accepted when the loop over the eight directions finds one whose walk
      captures. */
  predicate IsValidMove(b: Board, q: Square, p: Player)
    ensures IsValidMove(b, q, p) ==> At(b, q) == Empty
  {
    At(b, q) == Empty && AnyCaptures(b, q, p, 0)
  }

  // ---------------------------------------------------------------------
  // The rule stated without the walk
  // ---------------------------------------------------------------------

  /** The squares 1..k steps from q in direction d hold the opponent and the
      square k + 1 steps away holds p: a disc of p on q brackets k discs. */
  ghost predicate Brackets(b: Board, q: Square, d: Direction, p: Player, k: int) {
    && 1 <= k
    && (forall j :: 1 <= j <= k ==> OwnedBy(b, Ray(q, d, j), Opponent(p)))
    && OwnedBy(b, Ray(q, d, k + 1), p)
  }

  /** The Othello rule: an empty square from which some direction has a run
      of at least one opponent disc closed by one of p's own discs. */
  ghost predicate Legal(b: Board, q: Square, p: Player) {
    At(b, q) == Empty && exists i, k :: 0 <= i < 8 && Brackets(b, q, Directions[i], p, k)
  }

  lemma RayNext(q: Pos, d: Direction, j: int)
    ensures Ray(Next(q, d), d, j) == Ray(q, d, j + 1)
  {
  }

  /** A capturing walk brackets exactly its own length. */
  lemma CapturesBrackets(b: Board, q: Square, d: Direction, p: Player)
    requires Captures(b, q, d, p)
    ensures Brackets(b, q, d, p, |DirRun(b, q, d, p)|)
  {
    var run := DirRun(b, q, d, p);
    forall j | 1 <= j <= |run|
      ensures OwnedBy(b, Ray(q, d, j), Opponent(p))
    {
      RayNext(q, d, j - 1);
      assert run[j - 1] == Ray(q, d, j);
    }
    RayNext(q, d, |run|);
  }

  /** A bracketed run is what the walk finds, so the walk captures, and the
      bracket length is unique. */
  lemma BracketsCaptures(b: Board, q: Square, d: Direction, p: Player, k: int)
    requires Brackets(b, q, d, p, k)
    ensures Captures(b, q, d, p) && |DirRun(b, q, d, p)| == k
  {
    var run := DirRun(b, q, d, p);
    RayNext(q, d, |run|);
    RayNext(q, d, k);
  }

  lemma {:induction false} AnyCapturesIff(b: Board, q: Square, p: Player, i: nat)
    requires i <= 8
    ensures AnyCaptures(b, q, p, i) <==> exists n :: i <= n < 8 && Captures(b, q, Directions[n], p)
    decreases 8 - i
  {
    if i < 8 {
      AnyCapturesIff(b, q, p, i + 1);
    }
  }

  /** is_valid_move decides exactly the Othello rule. */
  lemma IsValidMoveIff(b: Board, q: Square, p: Player)
    ensures IsValidMove(b, q, p) <==> Legal(b, q, p)
  {
    AnyCapturesIff(b, q, p, 0);
    if IsValidMove(b, q, p) {
      var n :| 0 <= n < 8 && Captures(b, q, Directions[n], p);
      CapturesBrackets(b, q, Directions[n], p);
    }
    if Legal(b, q, p) {
      var n, k :| 0 <= n < 8 && Brackets(b, q, Directions[n], p, k);
      BracketsCaptures(b, q, Directions[n], p, k);
    }
  }

  /** An occupied square is never a legal move. */
  lemma OccupiedIsInvalid(b: Board, q: Square, p: Player)
    requires At(b, q) != Empty
    ensures !IsValidMove(b, q, p) && !Legal(b, q, p)
  {
  }

  // ---------------------------------------------------------------------
  // get_valid_moves
  // ---------------------------------------------------------------------

  /** Square q comes at or after (r, c) in row-major order. */
  predicate From(q: Square, r: int, c: int) {
    q.row > r || (q.row == r && q.col >= c)
  }

  /** The row-by-row, column-by-column scan of get_valid_moves, started at
      (r, c): the squares from there on where is_valid_move holds. */
  function Scan(b: Board, p: Player, r: nat, c: nat): (moves: seq<Square>)
    requires (r < 8 && c < 8) || (r == 8 && c == 0)
    ensures forall q: Square {:trigger q in moves} :: q in moves <==> From(q, r, c) && IsValidMove(b, q, p)
    ensures forall i :: 0 <= i < |moves| ==> From(moves[i], r, c)
    ensures forall i, j :: 0 <= i < j < |moves| ==> Idx(moves[i]) < Idx(moves[j])
    decreases 64 - (8 * r + c)
  {
    if r == 8 then []
    else
      var q := Pos(r, c);
      var (r', c') := if c == 7 then (r + 1, 0) else (r, c + 1);
      var rest := Scan(b, p, r', c');
      assert forall f: Square :: From(f, r, c) <==> f == q || From(f, r', c');
      var moves := if IsValidMove(b, q, p) then [q] + rest else rest;
      assert forall f: Square {:trigger f in moves} :: f in moves <==> From(f, r, c) && IsValidMove(b, f, p) by {
        forall f: Square
          ensures f in moves <==> From(f, r, c) && IsValidMove(b, f, p)
        {
          assert f in rest <==> From(f, r', c') && IsValidMove(b, f, p);
        }
      }
      moves
  }

  /** get_valid_moves: exactly the squares is_valid_move accepts, each once,
      in row-major order; each of them is empty. */
  function ValidMoves(b: Board, p: Player): (moves: seq<Square>)
    ensures forall q: Square :: q in moves <==> IsValidMove(b, q, p)
    ensures forall i, j :: 0 <= i < j < |moves| ==> Idx(moves[i]) < Idx(moves[j])
    ensures forall i :: 0 <= i < |moves| ==> At(b, moves[i]) == Empty
  {
    var moves := Scan(b, p, 0, 0);
    assert forall i :: 0 <= i < |moves| ==> At(b, moves[i]) == Empty by {
      forall i | 0 <= i < |moves|
        ensures At(b, moves[i]) == Empty
      {
        assert moves[i] in moves;
      }
    }
    moves
  }

  /** The listed moves are exactly the squares the Othello rule allows. */
  lemma ValidMovesLegal(b: Board, p: Player)
    ensures forall q: Square :: q in ValidMoves(b, p) <==> Legal(b, q, p)
  {
    forall q: Square
      ensures q in ValidMoves(b, p) <==> Legal(b, q, p)
    {
      IsValidMoveIff(b, q, p);
    }
  }

  // ---------------------------------------------------------------------
  // make_move
  // ---------------------------------------------------------------------

  /** The inner loop of make_move: set every listed square to p. */
  function Paint(b: Board, cells: seq<Square>, p: Player): (b': Board)
    ensures forall f: Square :: At(b', f) == if f in cells then p else At(b, f)
    decreases |cells|
  {
    if cells == [] then b else Paint(Put(b, cells[0], p), cells[1..], p)
  }

  /** One direction of make_move, read against the board as it stands. */
  function FlipRay(b: Board, q: Square, d: Direction, p: Player): (b': Board)
    ensures forall f: Square :: At(b', f) == if InCapture(b, q, d, p, f) then p else At(b, f)
  {
    RunCells(b, q, d, p);
    if Captures(b, q, d, p) then Paint(b, DirRun(b, q, d, p), p) else b
  }

  /** The directions from index i on, each applied to the board the previous
      ones left, as make_move's loop does. */
  function FlipFrom(b: Board, q: Square, p: Player, i: nat): (b': Board)
    requires i <= 8
    ensures forall f: Square :: At(b', f) == At(b, f) || At(b', f) == p
    decreases 8 - i
  {
    if i == 8 then b else FlipFrom(FlipRay(b, q, Directions[i], p), q, p, i + 1)
  }

  /** What make_move reports, and the board it leaves. */
  datatype MoveResult = MoveResult(applied: bool, board: Board)

  /** make_move: an illegal move is refused and changes nothing; a legal one
      places the disc and flips what it captures. */
  function MakeMove(b: Board, q: Square, p: Player): (r: MoveResult)
    ensures r.applied <==> IsValidMove(b, q, p)
    ensures !r.applied ==> r.board == b
  {
    if !IsValidMove(b, q, p) then MoveResult(false, b)
    else MoveResult(true, FlipFrom(Put(b, q, p), q, p, 0))
  }

  /** make_move succeeds exactly on the squares the Othello rule allows, and
      a refused move leaves the board as it was. */
  lemma MakeMoveLegal(b: Board, q: Square, p: Player)
    ensures MakeMove(b, q, p).applied <==> Legal(b, q, p)
    ensures !Legal(b, q, p) ==> MakeMove(b, q, p).board == b
  {
    IsValidMoveIff(b, q, p);
  }

  /** f lies on a run that a disc of p on q brackets in direction d. */
  ghost predicate InCapture(b: Board, q: Square, d: Direction, p: Player, f: Square) {
    exists k, j :: Brackets(b, q, d, p, k) && 1 <= j <= k && f == Ray(q, d, j)
  }

  /** The discs a move of p on q turns over, stated without the walk. */
  ghost predicate Flipped(b: Board, q: Square, p: Player, f: Square) {
    exists i :: 0 <= i < 8 && InCapture(b, q, Directions[i], p, f)
  }

  /** CaptureCells for every square at once. */
  lemma RunCells(b: Board, q: Square, d: Direction, p: Player)
    ensures forall f: Square :: (Captures(b, q, d, p) && f in DirRun(b, q, d, p)) <==> InCapture(b, q, d, p, f)
  {
    forall f: Square
      ensures (Captures(b, q, d, p) && f in DirRun(b, q, d, p)) <==> InCapture(b, q, d, p, f)
    {
      CaptureCells(b, q, d, p, f);
    }
  }

  lemma CaptureCells(b: Board, q: Square, d: Direction, p: Player, f: Square)
    ensures (Captures(b, q, d, p) && f in DirRun(b, q, d, p)) <==> InCapture(b, q, d, p, f)
  {
    var run := DirRun(b, q, d, p);
    if Captures(b, q, d, p) && f in run {
      CapturesBrackets(b, q, d, p);
      var i :| 0 <= i < |run| && run[i] == f;
      RayNext(q, d, i);
      assert f == Ray(q, d, i + 1);
    }
    if InCapture(b, q, d, p, f) {
      var k, j :| Brackets(b, q, d, p, k) && 1 <= j <= k && f == Ray(q, d, j);
      BracketsCaptures(b, q, d, p, k);
      RayNext(q, d, j - 1);
      assert run[j - 1] == f;
    }
  }

  /** Distinct directions from one square never meet again. */
  lemma RaysDisjoint(q: Pos, d1: Direction, d2: Direction, j1: int, j2: int)
    requires d1 != d2 && 1 <= j1 && 1 <= j2
    ensures Ray(q, d1, j1) != Ray(q, d2, j2)
  {
  }

  lemma DirectionsDistinct(i1: int, i2: int)
    requires 0 <= i1 < 8 && 0 <= i2 < 8 && i1 != i2
    ensures Directions[i1] != Directions[i2]
  {
  }

  /** The squares turned by the first i directions, read on the pre-move board. */
  ghost function Done(b: Board, q: Square, p: Player, i: nat): set<Square>
    requires i <= 8
  {
    if i == 0 then {}
    else
      var d := Directions[i - 1];
      Done(b, q, p, i - 1) + (if Captures(b, q, d, p) then set f | f in DirRun(b, q, d, p) else {})
  }

  lemma {:induction false} DoneIff(b: Board, q: Square, p: Player, i: nat, f: Square)
    requires i <= 8
    ensures f in Done(b, q, p, i) <==> exists n :: 0 <= n < i && InCapture(b, q, Directions[n], p, f)
  {
    if i > 0 {
      var d := Directions[i - 1];
      DoneIff(b, q, p, i - 1, f);
      DoneStep(b, q, p, i, f);
      if exists n :: 0 <= n < i && InCapture(b, q, Directions[n], p, f) {
        var n :| 0 <= n < i && InCapture(b, q, Directions[n], p, f);
        assert n < i - 1 || InCapture(b, q, d, p, f);
      }
    }
  }

  lemma DoneStep(b: Board, q: Square, p: Player, i: nat, f: Square)
    requires 0 < i <= 8
    ensures f in Done(b, q, p, i) <==> f in Done(b, q, p, i - 1) || InCapture(b, q, Directions[i - 1], p, f)
  {
    CaptureCells(b, q, Directions[i - 1], p, f);
  }

  /** Two boards that agree along a ray give the same walk. */
  lemma RunFrame(b1: Board, b2: Board, q: Pos, d: Direction, p: Player)
    requires forall j :: 0 <= j && InBounds(Ray(q, d, j)) ==> At(b1, Ray(q, d, j)) == At(b2, Ray(q, d, j))
    ensures Run(b1, q, d, p) == Run(b2, q, d, p)
    decreases Room(q, d)
  {
    assert Ray(q, d, 0) == q;
    if OwnedBy(b1, q, Opponent(p)) {
      forall j | 0 <= j && InBounds(Ray(Next(q, d), d, j))
        ensures At(b1, Ray(Next(q, d), d, j)) == At(b2, Ray(Next(q, d), d, j))
      {
        RayNext(q, d, j);
      }
      RunFrame(b1, b2, Next(q, d), d, p);
    }
  }

  /** A square on ray i is not among the squares the first i directions turn. */
  lemma DoneOffRay(b: Board, q: Square, p: Player, i: nat, f: Square, j: int)
    requires i < 8 && 1 <= j && f == Ray(q, Directions[i], j)
    ensures f !in Done(b, q, p, i) && f != q
  {
    DoneIff(b, q, p, i, f);
    if f in Done(b, q, p, i) {
      var n :| 0 <= n < i && InCapture(b, q, Directions[n], p, f);
      var k, j' :| Brackets(b, q, Directions[n], p, k) && 1 <= j' <= k && f == Ray(q, Directions[n], j');
      DirectionsDistinct(n, i);
      RaysDisjoint(q, Directions[n], Directions[i], j', j);
    }
  }

  /** Flipping direction i on the partly flipped board reads the same run as
      on the pre-move board, because the earlier flips lie on other rays. */
  lemma FlipRayStep(b: Board, c: Board, q: Square, p: Player, i: nat)
    requires i < 8
    requires forall f: Square :: At(c, f) == if f in Done(b, q, p, i) then p else At(Put(b, q, p), f)
    ensures forall f: Square ::
              At(FlipRay(c, q, Directions[i], p), f) == if f in Done(b, q, p, i + 1) then p else At(Put(b, q, p), f)
  {
    var d := Directions[i];
    forall j | 0 <= j && InBounds(Ray(Next(q, d), d, j))
      ensures At(c, Ray(Next(q, d), d, j)) == At(b, Ray(Next(q, d), d, j))
    {
      RayNext(q, d, j);
      DoneOffRay(b, q, p, i, Ray(q, d, j + 1), j + 1);
    }
    RunFrame(c, b, Next(q, d), d, p);
  }

  lemma {:induction false} FlipFromDone(b: Board, c: Board, q: Square, p: Player, i: nat)
    requires i <= 8
    requires forall f: Square :: At(c, f) == if f in Done(b, q, p, i) then p else At(Put(b, q, p), f)
    ensures forall f: Square ::
              At(FlipFrom(c, q, p, i), f) == if f in Done(b, q, p, 8) then p else At(Put(b, q, p), f)
    decreases 8 - i
  {
    if i < 8 {
      FlipRayStep(b, c, q, p, i);
      FlipFromDone(b, FlipRay(c, q, Directions[i], p), q, p, i + 1);
    }
  }

  /** make_move on a legal square: the square gets p, every bracketed disc
      (an opponent disc before the move) turns to p, at least one does, and
      no other square changes. */
  lemma MakeMoveEffect(b: Board, q: Square, p: Player)
    requires Legal(b, q, p)
    ensures At(MakeMove(b, q, p).board, q) == p
    ensures forall f: Square :: Flipped(b, q, p, f) ==> At(b, f) == Opponent(p) && At(MakeMove(b, q, p).board, f) == p
    ensures forall f: Square :: f != q && !Flipped(b, q, p, f) ==> At(MakeMove(b, q, p).board, f) == At(b, f)
    ensures exists f: Square :: Flipped(b, q, p, f)
  {
    IsValidMoveIff(b, q, p);
    var b' := MakeMove(b, q, p).board;
    FlipFromDone(b, Put(b, q, p), q, p, 0);
    forall f: Square
      ensures f in Done(b, q, p, 8) <==> Flipped(b, q, p, f)
    {
      DoneIff(b, q, p, 8, f);
    }
    forall f: Square | Flipped(b, q, p, f)
      ensures At(b, f) == Opponent(p) && f != q
    {
      FlippedWasOpponent(b, q, p, f);
    }
    SomeFlipped(b, q, p);
  }

  /** A flipped square held an opponent disc, so it is not the square played. */
  lemma FlippedWasOpponent(b: Board, q: Square, p: Player, f: Square)
    requires At(b, q) == Empty && Flipped(b, q, p, f)
    ensures At(b, f) == Opponent(p) && f != q
  {
    var n :| 0 <= n < 8 && InCapture(b, q, Directions[n], p, f);
    var k, j :| Brackets(b, q, Directions[n], p, k) && 1 <= j <= k && f == Ray(q, Directions[n], j);
  }

  /** A legal move flips at least the first disc of a bracketed run. */
  lemma SomeFlipped(b: Board, q: Square, p: Player)
    requires Legal(b, q, p)
    ensures exists f: Square :: Flipped(b, q, p, f)
  {
    var n, k :| 0 <= n < 8 && Brackets(b, q, Directions[n], p, k);
    assert OwnedBy(b, Ray(q, Directions[n], 1), Opponent(p));
    var f: Square := Ray(q, Directions[n], 1);
    assert Brackets(b, q, Directions[n], p, k) && 1 <= 1 <= k && f == Ray(q, Directions[n], 1);
    assert InCapture(b, q, Directions[n], p, f);
    assert Flipped(b, q, p, f);
  }

  /** make_move on a legal square: one empty square is filled, at least one
      disc flips, p gains the placed disc plus every flipped one, the opponent
      loses the flipped ones, and the board still holds 64 squares. */
  lemma MakeMoveCounts(b: Board, q: Square, p: Player)
    requires Legal(b, q, p)
    ensures var b' := MakeMove(b, q, p).board;
            && Count(b', Empty) == Count(b, Empty) - 1
            && Lost(b, b', Opponent(p)) >= 1
            && Count(b', p) == Count(b, p) + 1 + Lost(b, b', Opponent(p))
            && Count(b', Opponent(p)) == Count(b, Opponent(p)) - Lost(b, b', Opponent(p))
  {
    var b' := MakeMove(b, q, p).board;
    MakeMoveEffect(b, q, p);
    forall i | 0 <= i < 64
      ensures b'[i] == b[i] || b'[i] == p
      ensures i != Idx(q) ==> !(b[i] == Empty && b'[i] != Empty)
    {
      var f := SquareAt(i);
      assert At(b, f) == b[i] && At(b', f) == b'[i];
    }
    CountsAfterTurning(b, b', p);
    LostExactlyOne(b, b', Empty, Idx(q));
    var f: Square :| Flipped(b, q, p, f);
    LostPositive(b, b', Opponent(p), Idx(f));
  }
}
