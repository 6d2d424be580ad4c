/** The 8x8 Othello board. A square holds 1 (a black disc, the human's),
    -1 (a white disc, the AI's) or 0 (empty), the encoding app.py uses.
    The board is stored row-major: square (row, col) lives at index 8 * row + col. */
module Grid {

  /** The contents of one square. */
  type Cell = c: int | -1 <= c <= 1

  /** A side. Black (1) is the human and moves first; white (-1) is the AI. */
  type Player = p: int | p == 1 || p == -1 witness 1

  const Empty: Cell := 0
  const Black: Player := 1
  const White: Player := -1

  /** The other side: the value of the discs a move by p captures. */
  function Opponent(p: Player): (o: Player)
    ensures o as int == -(p as int)
  {
    if p == Black then White else Black
  }

  /** A whole board: always exactly 64 squares. */
  type Board = b: seq<Cell> | |b| == 64 witness Blank(64)

  /** A coordinate pair; it may lie off the board while a ray is being walked. */
  datatype Pos = Pos(row: int, col: int)

  predicate InBounds(q: Pos) {
    0 <= q.row < 8 && 0 <= q.col < 8
  }

  /** A coordinate pair on the board. */
  type Square = q: Pos | InBounds(q) witness Pos(0, 0)

  /** Row-major position of a square. */
  function Idx(q: Square): (i: nat)
    ensures i < 64
  {
    8 * q.row + q.col
  }

  /** The square at a row-major position. */
  function SquareAt(i: nat): (q: Square)
    requires i < 64
    ensures Idx(q) == i
  {
    Pos(i / 8, i % 8)
  }

  function At(b: Board, q: Square): Cell {
    b[Idx(q)]
  }

  /** q is on the board and holds v. */
  predicate OwnedBy(b: Board, q: Pos, v: int) {
    InBounds(q) && At(b, q) == v
  }

  /** The board with square q set to v. */
  function Put(b: Board, q: Square, v: Cell): (b': Board)
    ensures At(b', q) == v
    ensures forall f: Square :: f != q ==> At(b', f) == At(b, f)
  {
    b[Idx(q) := v]
  }

  function Blank(n: nat): (s: seq<Cell>)
    ensures |s| == n
  {
    seq(n, _ => 0)
  }

  /** The starting position (app.py, init_board): white on (3,3) and (4,4),
      black on (3,4) and (4,3), the other 60 squares empty. */
  function InitBoard(): (b: Board)
    ensures At(b, Pos(3, 3)) == White && At(b, Pos(4, 4)) == White
    ensures At(b, Pos(3, 4)) == Black && At(b, Pos(4, 3)) == Black
    ensures forall q: Square ::
              q != Pos(3, 3) && q != Pos(4, 4) && q != Pos(3, 4) && q != Pos(4, 3) ==> At(b, q) == Empty
    ensures Count(b, Empty) == 60 && Count(b, Black) == 2 && Count(b, White) == 2
  {
    var b0: Board := Blank(64);
    var b1 := b0[27 := White];
    var b2 := b1[28 := Black];
    var b3 := b2[35 := Black];
    var b4 := b3[36 := White];
    InitCounts(b0, b1, b2, b3, b4);
    b4
  }

  /** Number of squares of s holding v (np.sum(board == v)): never more than
      there are squares. */
  function Count(s: seq<Cell>, v: Cell): (n: nat)
    ensures n <= |s|
  {
    if s == [] then 0 else (if s[0] == v then 1 else 0) + Count(s[1..], v)
  }

  /** A count is zero exactly when no square holds v, and the full length
      exactly when every square does. */
  lemma {:induction false} CountExtremes(s: seq<Cell>, v: Cell)
    ensures Count(s, v) == 0 <==> v !in s
    ensures Count(s, v) == |s| <==> forall i :: 0 <= i < |s| ==> s[i] == v
  {
    if s != [] {
      CountExtremes(s[1..], v);
      assert s == [s[0]] + s[1..];
      if forall i :: 0 <= i < |s[1..]| ==> s[1..][i] == v {
        assert forall i :: 1 <= i < |s| ==> s[i] == s[1..][i - 1];
      }
    }
  }

  lemma {:induction false} CountBlank(n: nat, v: Cell)
    ensures Count(Blank(n), v) == if v == Empty then n else 0
  {
    if n > 0 {
      assert Blank(n)[1..] == Blank(n - 1);
      CountBlank(n - 1, v);
    }
  }

  lemma InitCounts(b0: seq<Cell>, b1: seq<Cell>, b2: seq<Cell>, b3: seq<Cell>, b4: seq<Cell>)
    requires b0 == Blank(64) && b1 == b0[27 := White] && b2 == b1[28 := Black]
    requires b3 == b2[35 := Black] && b4 == b3[36 := White]
    ensures Count(b4, Empty) == 60 && Count(b4, Black) == 2 && Count(b4, White) == 2
  {
    InitCount(b0, b1, b2, b3, b4, Empty);
    InitCount(b0, b1, b2, b3, b4, Black);
    InitCount(b0, b1, b2, b3, b4, White);
  }

  lemma InitCount(b0: seq<Cell>, b1: seq<Cell>, b2: seq<Cell>, b3: seq<Cell>, b4: seq<Cell>, v: Cell)
    requires b0 == Blank(64) && b1 == b0[27 := White] && b2 == b1[28 := Black]
    requires b3 == b2[35 := Black] && b4 == b3[36 := White]
    ensures Count(b4, v) == if v == Empty then 60 else 2
  {
    CountBlank(64, v);
    CountUpdate(b0, 27, White, v);
    CountUpdate(b1, 28, Black, v);
    CountUpdate(b2, 35, Black, v);
    CountUpdate(b3, 36, White, v);
  }

  /** Overwriting one square moves it from its old value's count to the new one's. */
  lemma {:induction false} CountUpdate(s: seq<Cell>, i: nat, x: Cell, v: Cell)
    requires i < |s|
    ensures Count(s[i := x], v) == Count(s, v) - (if s[i] == v then 1 else 0) + (if x == v then 1 else 0)
  {
    if i == 0 {
      assert s[i := x][1..] == s[1..];
    } else {
      assert s[i := x][1..] == s[1..][i - 1 := x];
      CountUpdate(s[1..], i - 1, x, v);
    }
  }

  /** Every square is black, white or empty, so the three counts add up to the
      board size: 64 for every board. */
  lemma {:induction false} CountTotal(s: seq<Cell>)
    ensures Count(s, White) + Count(s, Empty) + Count(s, Black) == |s|
  {
    if s != [] {
      CountTotal(s[1..]);
    }
  }

  /** How many squares held u in s and hold something else in t. */
  function Lost(s: seq<Cell>, t: seq<Cell>, u: Cell): nat
    requires |s| == |t|
  {
    if s == [] then 0 else (if s[0] == u && t[0] != u then 1 else 0) + Lost(s[1..], t[1..], u)
  }

  /** If t differs from s only by squares turned to p, then p gains exactly
      what the other two values lose. */
  lemma {:induction false} CountsAfterTurning(s: seq<Cell>, t: seq<Cell>, p: Player)
    requires |s| == |t|
    requires forall i :: 0 <= i < |s| ==> t[i] == s[i] || t[i] == p
    ensures Count(t, p) == Count(s, p) + Lost(s, t, Empty) + Lost(s, t, Opponent(p))
    ensures Count(t, Empty) == Count(s, Empty) - Lost(s, t, Empty)
    ensures Count(t, Opponent(p)) == Count(s, Opponent(p)) - Lost(s, t, Opponent(p))
  {
    if s != [] {
      CountsAfterTurning(s[1..], t[1..], p);
    }
  }

  /** A square that lost u is counted. */
  lemma {:induction false} LostPositive(s: seq<Cell>, t: seq<Cell>, u: Cell, k: nat)
    requires |s| == |t| && k < |s|
    requires s[k] == u && t[k] != u
    ensures Lost(s, t, u) >= 1
  {
    if k > 0 {
      LostPositive(s[1..], t[1..], u, k - 1);
    }
  }

  /** When square k is the only one that lost u, exactly one is counted. */
  lemma {:induction false} LostExactlyOne(s: seq<Cell>, t: seq<Cell>, u: Cell, k: nat)
    requires |s| == |t| && k < |s|
    requires s[k] == u && t[k] != u
    requires forall i :: 0 <= i < |s| && i != k ==> !(s[i] == u && t[i] != u)
    ensures Lost(s, t, u) == 1
  {
    if k > 0 {
      LostExactlyOne(s[1..], t[1..], u, k - 1);
    } else {
      LostNone(s[1..], t[1..], u);
    }
  }

  lemma {:induction false} LostNone(s: seq<Cell>, t: seq<Cell>, u: Cell)
    requires |s| == |t|
    requires forall i :: 0 <= i < |s| ==> !(s[i] == u && t[i] != u)
    ensures Lost(s, t, u) == 0
  {
    if s != [] {
      LostNone(s[1..], t[1..], u);
    }
  }
}
