/**
 * The 6 x 7 Connect-4 grid shared by the search agent, the training loop and the
 * Q-table: cell values, piece counting, the gravity rule and the geometric
 * meaning of "four in a row".
 */
module Grid {

  const ROWS: int := 6
  const COLS: int := 7
  const EMPTY: int := 0
  /** The -1 pieces; the search agent's turn rule gives this player the move on equal counts. */
  const P1: int := -1
  /** The +1 pieces; the training loop's player 1. */
  const P2: int := 1
  /** COLS / 2, the column the heuristic and the tie-break favour. */
  const CENTRE: int := 3

  /** Row 0 is the top of the grid, row ROWS - 1 the bottom. */
  type Board = seq<seq<int>>

  predicate WellFormed(b: Board) {
    |b| == ROWS && forall r :: 0 <= r < ROWS ==> |b[r]| == COLS
  }

  predicate IsPlayer(p: int) {
    p == P1 || p == P2
  }

  predicate InBounds(r: int, c: int) {
    0 <= r < ROWS && 0 <= c < COLS
  }

  /** The board every game starts from. */
  function EmptyBoard(): (b: Board)
    ensures WellFormed(b)
    ensures forall r, c :: InBounds(r, c) ==> b[r][c] == EMPTY
  {
    seq(ROWS, _ => seq(COLS, _ => EMPTY))
  }

  /** The top cell of col is free, so a piece can still be dropped there. */
  predicate Playable(b: Board, col: int)
    requires WellFormed(b)
  {
    0 <= col < COLS && b[0][col] == EMPTY
  }

  // ---------------------------------------------------------------------------
  // Lines of four cells
  // ---------------------------------------------------------------------------

  /** Four cells starting at (r, c), each one step of (dr, dc) after the previous. */
  datatype Line = Line(r: int, c: int, dr: int, dc: int)

  /** A unit step in one of the eight compass directions. */
  predicate IsDir(l: Line) {
    -1 <= l.dr <= 1 && -1 <= l.dc <= 1 && (l.dr != 0 || l.dc != 0)
  }

  /** All four cells of l lie on the grid (the middle two follow from the ends). */
  predicate Fits(l: Line) {
    InBounds(l.r, l.c) && InBounds(l.r + 3 * l.dr, l.c + 3 * l.dc)
  }

  /** The values of the four cells of l, in order. */
  function Window(b: Board, l: Line): (w: seq<int>)
    requires WellFormed(b) && Fits(l)
    ensures |w| == 4
  {
    [b[l.r][l.c], b[l.r + l.dr][l.c + l.dc], b[l.r + 2 * l.dr][l.c + 2 * l.dc], b[l.r + 3 * l.dr][l.c + 3 * l.dc]]
  }

  /** Every cell of l holds p. */
  predicate Filled(b: Board, l: Line, p: int)
    requires WellFormed(b)
  {
    Fits(l) && Window(b, l) == [p, p, p, p]
  }

  /** (i, j) is one of the four cells of l. */
  predicate OnLine(l: Line, i: int, j: int) {
    || (i == l.r && j == l.c)
    || (i == l.r + l.dr && j == l.c + l.dc)
    || (i == l.r + 2 * l.dr && j == l.c + 2 * l.dc)
    || (i == l.r + 3 * l.dr && j == l.c + 3 * l.dc)
  }

  /** The same four cells walked from the other end. */
  function Reverse(l: Line): (l': Line)
    ensures Fits(l) ==> Fits(l')
    ensures forall i, j :: OnLine(l, i, j) <==> OnLine(l', i, j)
  {
    Line(l.r + 3 * l.dr, l.c + 3 * l.dc, -l.dr, -l.dc)
  }

  /**
   * The win condition in geometric terms: p occupies four consecutive cells
   * along a row, a column or a diagonal, in any of the eight directions.
   */
  ghost predicate HasRun(b: Board, p: int)
    requires WellFormed(b)
  {
    exists l :: IsDir(l) && Filled(b, l, p)
  }

  /** Some player (any non-EMPTY value) has four in a row. */
  ghost predicate AnyRun(b: Board)
    requires WellFormed(b)
  {
    exists p :: p != EMPTY && HasRun(b, p)
  }

  lemma ReverseFilled(b: Board, l: Line, p: int)
    requires WellFormed(b) && Filled(b, l, p)
    ensures Filled(b, Reverse(l), p) && (IsDir(l) ==> IsDir(Reverse(l)))
  {
    var w := Window(b, l);
    var l' := Reverse(l);
    assert w[0] == p && w[1] == p && w[2] == p && w[3] == p;
    assert Window(b, l') == [w[3], w[2], w[1], w[0]];
  }

  /**
   * nb differs from b at most in the cell (row, col): a run of p in nb
   * either passes through that cell or was already a run in b.
   */
  lemma RunThroughCellOrOld(b: Board, nb: Board, l: Line, p: int, row: int, col: int)
    requires WellFormed(b) && WellFormed(nb)
    requires forall i, j :: 0 <= i < ROWS && 0 <= j < COLS && (i != row || j != col) ==> nb[i][j] == b[i][j]
    requires Filled(nb, l, p)
    ensures (OnLine(l, row, col) && nb[row][col] == p) || (Filled(b, l, p) && (IsDir(l) ==> HasRun(b, p)))
  {
    if !OnLine(l, row, col) {
      assert Window(b, l) == Window(nb, l);
    }
  }

  // ---------------------------------------------------------------------------
  // Counting cells
  // ---------------------------------------------------------------------------

  /** How many entries of s equal v. */
  function Count(s: seq<int>, v: int): (n: nat)
    ensures n <= |s|
  {
    if s == [] then 0 else (if s[0] == v then 1 else 0) + Count(s[1..], v)
  }

  lemma {:induction false} CountAbsent(s: seq<int>, v: int)
    requires forall i :: 0 <= i < |s| ==> s[i] != v
    ensures Count(s, v) == 0
  {
    if s != [] {
      CountAbsent(s[1..], v);
    }
  }

  /** Three different values share the entries of s between them. */
  lemma {:induction false} CountDistinct(s: seq<int>, x: int, y: int, z: int)
    requires x != y && y != z && x != z
    ensures Count(s, x) + Count(s, y) + Count(s, z) <= |s|
  {
    if s != [] {
      CountDistinct(s[1..], x, y, z);
    }
  }

  /** How many cells of b equal v. */
  function CountBoard(b: seq<seq<int>>, v: int): nat {
    if b == [] then 0 else Count(b[0], v) + CountBoard(b[1..], v)
  }

  /** The number of free cells, which every legal move lowers by one. */
  function EmptyCount(b: Board): nat {
    CountBoard(b, EMPTY)
  }

  lemma {:induction false} CountAll(s: seq<int>, v: int)
    requires forall i :: 0 <= i < |s| ==> s[i] == v
    ensures Count(s, v) == |s|
  {
    if s != [] {
      CountAll(s[1..], v);
    }
  }

  /** A grid whose every cell is v counts v in every cell. */
  lemma {:induction false} CountBoardAll(b: seq<seq<int>>, v: int)
    requires forall r :: 0 <= r < |b| ==> |b[r]| == COLS && forall c :: 0 <= c < COLS ==> b[r][c] == v
    ensures CountBoard(b, v) == COLS * |b|
  {
    if b != [] {
      CountAll(b[0], v);
      CountBoardAll(b[1..], v);
    }
  }

  lemma {:induction false} CountUpdate(s: seq<int>, i: int, x: int, v: int)
    requires 0 <= i < |s|
    ensures Count(s[i := x], v) == Count(s, v) - (if s[i] == v then 1 else 0) + (if x == v then 1 else 0)
  {
    if i > 0 {
      assert s[i := x][1..] == s[1..][i - 1 := x];
      CountUpdate(s[1..], i - 1, x, v);
    } else {
      assert s[i := x][1..] == s[1..];
    }
  }

  /** Overwriting one cell changes the count of v by at most the cell itself. */
  lemma {:induction false} CountBoardUpdate(b: seq<seq<int>>, r: int, c: int, x: int, v: int)
    requires 0 <= r < |b| && 0 <= c < |b[r]|
    ensures CountBoard(b[r := b[r][c := x]], v)
         == CountBoard(b, v) - (if b[r][c] == v then 1 else 0) + (if x == v then 1 else 0)
  {
    var nb := b[r := b[r][c := x]];
    if r > 0 {
      assert nb[1..] == b[1..][r - 1 := b[r][c := x]];
      CountBoardUpdate(b[1..], r - 1, c, x, v);
    } else {
      assert nb[1..] == b[1..];
      CountUpdate(b[0], c, x, v);
    }
  }

  lemma {:induction false} CountBoardBound(b: seq<seq<int>>, v: int)
    requires forall r :: 0 <= r < |b| ==> |b[r]| == COLS
    ensures CountBoard(b, v) <= COLS * |b|
  {
    if b != [] {
      CountBoardBound(b[1..], v);
    }
  }

  /** A grid never has more than ROWS * COLS = 42 free cells. */
  lemma EmptyCountBound(b: Board)
    requires WellFormed(b)
    ensures EmptyCount(b) <= ROWS * COLS
  {
    CountBoardBound(b, EMPTY);
  }

  // ---------------------------------------------------------------------------
  // Gravity
  // ---------------------------------------------------------------------------

  /**
   * Scanning col upwards from row r: the first EMPTY cell met (the one with the
   * largest row index), or -1 when rows 0..r of col are all occupied.
   */
  function LowestEmptyFrom(b: Board, col: int, r: int): (row: int)
    requires WellFormed(b) && 0 <= col < COLS && -1 <= r < ROWS
    ensures -1 <= row <= r
    ensures row >= 0 ==> b[row][col] == EMPTY
    ensures forall i :: row < i <= r ==> b[i][col] != EMPTY
    decreases r + 1
  {
    if r < 0 then -1
    else if b[r][col] == EMPTY then r
    else LowestEmptyFrom(b, col, r - 1)
  }

  /**
   * The row a piece dropped into col comes to rest in: the largest row index
   * whose cell is EMPTY, or -1 when the column is full.
   */
  function LowestEmpty(b: Board, col: int): (row: int)
    requires WellFormed(b) && 0 <= col < COLS
    ensures -1 <= row < ROWS
    ensures row >= 0 ==> b[row][col] == EMPTY
    ensures forall i :: row < i < ROWS ==> b[i][col] != EMPTY
  {
    LowestEmptyFrom(b, col, ROWS - 1)
  }

  /** nb is b with p written at (row, col) and every other cell untouched. */
  predicate Placed(b: Board, nb: Board, row: int, col: int, p: int)
    requires WellFormed(b)
  {
    && WellFormed(nb)
    && InBounds(row, col)
    && nb[row][col] == p
    && forall i, j :: 0 <= i < ROWS && 0 <= j < COLS && (i != row || j != col) ==> nb[i][j] == b[i][j]
  }

  /** Writing a piece into a free cell uses up exactly one free cell. */
  lemma PlacedEmptyCount(b: Board, row: int, col: int, p: int)
    requires WellFormed(b) && InBounds(row, col) && b[row][col] == EMPTY
    ensures p != EMPTY ==> EmptyCount(b[row := b[row][col := p]]) == EmptyCount(b) - 1
  {
    CountBoardUpdate(b, row, col, p, EMPTY);
  }

  /**
   * A move that completes a run where there was none: if nb is b with p
   * placed at (row, col), b had no four in a row and nb has one of some
   * non-EMPTY w, then the run passes through the new piece, so w is the mover.
   */
  lemma NewRunIsMovers(b: Board, nb: Board, row: int, col: int, p: int, w: int)
    requires WellFormed(b) && Placed(b, nb, row, col, p)
    requires !AnyRun(b) && w != EMPTY && HasRun(nb, w)
    ensures w == p
  {
    var l :| IsDir(l) && Filled(nb, l, w);
    RunThroughCellOrOld(b, nb, l, w, row, col);
  }
}
