/**
 * The board primitives of the minimax agent (class UCB1Agent): playable
 * columns, the gravity drop, four-in-a-row detection, the "would this move
 * win" oracle and the static window-scoring heuristic.
 */
module Policy {

  import opened Grid

  // ---------------------------------------------------------------------------
  // Playable columns and the drop
  // ---------------------------------------------------------------------------

  function ValidColsFrom(b: Board, c: int): (cols: seq<int>)
    requires WellFormed(b) && 0 <= c <= COLS
    ensures forall i :: 0 <= i < |cols| ==> c <= cols[i] && Playable(b, cols[i])
    ensures forall x :: c <= x && Playable(b, x) ==> x in cols
    ensures forall i, j :: 0 <= i < j < |cols| ==> cols[i] < cols[j]
    decreases COLS - c
  {
    if c == COLS then []
    else if b[0][c] == EMPTY then [c] + ValidColsFrom(b, c + 1)
    else ValidColsFrom(b, c + 1)
  }

  /** The columns whose top cell is EMPTY, in ascending order. */
  function ValidCols(b: Board): (cols: seq<int>)
    requires WellFormed(b)
    ensures forall x :: x in cols <==> Playable(b, x)
    ensures forall i, j :: 0 <= i < j < |cols| ==> cols[i] < cols[j]
  {
    ValidColsFrom(b, 0)
  }

  /**
   * A copy of b with p dropped into col: it lands in the lowest EMPTY cell of
   * the column and nothing else changes; a full column leaves the board as it was.
   */
  function Drop(b: Board, col: int, p: int): (nb: Board)
    requires WellFormed(b) && 0 <= col < COLS
    ensures WellFormed(nb)
    ensures LowestEmpty(b, col) < 0 ==> nb == b
    ensures LowestEmpty(b, col) >= 0 ==> Placed(b, nb, LowestEmpty(b, col), col, p)
    ensures Playable(b, col) && p != EMPTY ==> EmptyCount(nb) == EmptyCount(b) - 1
  {
    var row := LowestEmpty(b, col);
    if row < 0 then b
    else
      PlacedEmptyCount(b, row, col, p);
      b[row := b[row][col := p]]
  }

  // ---------------------------------------------------------------------------
  // Four in a row
  // ---------------------------------------------------------------------------

  /** Horizontal windows, row by row, starting columns 0..3. */
  function HLines(): seq<Line> { seq(24, k => Line(k / 4, k % 4, 0, 1)) }
  /** Vertical windows, column by column, starting rows 0..2. */
  function VLines(): seq<Line> { seq(21, k => Line(k % 3, k / 3, 1, 0)) }
  /** Down-right diagonals starting in rows 0..2, columns 0..3. */
  function DLines(): seq<Line> { seq(12, k => Line(k / 4, k % 4, 1, 1)) }
  /** Down-left diagonals starting in rows 0..2, columns 3..6. */
  function ALines(): seq<Line> { seq(12, k => Line(k / 4, 3 + k % 4, 1, -1)) }

  /** The 69 four-cell windows the agent scans, in its scanning order. */
  function Windows(): seq<Line> {
    HLines() + VLines() + DLines() + ALines()
  }

  lemma WindowsFit()
    ensures |Windows()| == 69
    ensures forall i :: 0 <= i < |Windows()| ==> Fits(Windows()[i]) && IsDir(Windows()[i])
  {
  }

  lemma DivMod(q: int, m: int, n: int)
    requires 0 <= q && 0 <= m < n && (n == 3 || n == 4)
    ensures (q * n + m) / n == q && (q * n + m) % n == m
  {
  }

  /** Every fitting line in one of the four scanned directions is one of the windows. */
  lemma InWindows(l: Line)
    requires Fits(l)
    requires (l.dr, l.dc) in {(0, 1), (1, 0), (1, 1), (1, -1)}
    ensures l in Windows()
  {
    if (l.dr, l.dc) == (0, 1) {
      DivMod(l.r, l.c, 4);
      assert Windows()[l.r * 4 + l.c] == l;
    } else if (l.dr, l.dc) == (1, 0) {
      DivMod(l.c, l.r, 3);
      assert Windows()[24 + l.c * 3 + l.r] == l;
    } else if (l.dr, l.dc) == (1, 1) {
      DivMod(l.r, l.c, 4);
      assert Windows()[45 + l.r * 4 + l.c] == l;
    } else {
      DivMod(l.r, l.c - 3, 4);
      assert Windows()[57 + l.r * 4 + l.c - 3] == l;
    }
  }

  /** p holds all four cells of one of the windows in ls (scanned in order, stopping at the first hit). */
  predicate AnyFilled(b: Board, ls: seq<Line>, p: int)
    requires WellFormed(b)
  {
    ls != [] && (Filled(b, ls[0], p) || AnyFilled(b, ls[1..], p))
  }

  lemma {:induction false} AnyFilledIff(b: Board, ls: seq<Line>, p: int)
    requires WellFormed(b)
    ensures AnyFilled(b, ls, p) <==> exists i :: 0 <= i < |ls| && Filled(b, ls[i], p)
  {
    if ls != [] {
      AnyFilledIff(b, ls[1..], p);
      if exists i :: 0 <= i < |ls| && Filled(b, ls[i], p) {
        var i :| 0 <= i < |ls| && Filled(b, ls[i], p);
        if i > 0 {
          assert ls[1..][i - 1] == ls[i];
        }
      }
      if exists i :: 0 <= i < |ls[1..]| && Filled(b, ls[1..][i], p) {
        var i :| 0 <= i < |ls[1..]| && Filled(b, ls[1..][i], p);
        assert ls[i + 1] == ls[1..][i];
      }
    }
  }

  /** p holds all four cells of one of the scanned windows. */
  predicate HasFour(b: Board, p: int)
    requires WellFormed(b)
  {
    AnyFilled(b, Windows(), p)
  }

  /** A window the scan finds filled is a run. */
  lemma HasFourIsRun(b: Board, p: int)
    requires WellFormed(b) && HasFour(b, p)
    ensures HasRun(b, p)
  {
    AnyFilledIff(b, Windows(), p);
    var i :| 0 <= i < |Windows()| && Filled(b, Windows()[i], p);
    WindowsFit();
    assert IsDir(Windows()[i]);
  }

  /** A run in any direction shows up as a filled window, possibly walked from the other end. */
  lemma RunIsHasFour(b: Board, p: int)
    requires WellFormed(b) && HasRun(b, p)
    ensures HasFour(b, p)
  {
    var l :| IsDir(l) && Filled(b, l, p);
    var l' := if l.dr == -1 || (l.dr == 0 && l.dc == -1) then Reverse(l) else l;
    ReverseFilled(b, l, p);
    assert Filled(b, l', p);
    InWindows(l');
    var i :| 0 <= i < |Windows()| && Windows()[i] == l';
    AnyFilledIff(b, Windows(), p);
  }

  /**
   * The scan is complete: it finds four in a row exactly when there is a run
   * of four in any of the eight directions anywhere on the grid.
   */
  lemma HasFourIffRun(b: Board, p: int)
    requires WellFormed(b)
    ensures HasFour(b, p) <==> HasRun(b, p)
  {
    if HasFour(b, p) {
      HasFourIsRun(b, p);
    }
    if HasRun(b, p) {
      RunIsHasFour(b, p);
    }
  }

  /**
   * Dropping p into col wins on the spot: false when the column is full,
   * otherwise whether the board after the drop shows four for p.
   */
  predicate IsWinningMove(b: Board, col: int, p: int)
    requires WellFormed(b) && 0 <= col < COLS
  {
    if b[0][col] != EMPTY then false
    else HasFour(Drop(b, col, p), p)
  }

  /** A winning move is a playable column whose drop gives p four in a line in some direction. */
  lemma IsWinningMoveIff(b: Board, col: int, p: int)
    requires WellFormed(b) && 0 <= col < COLS
    ensures IsWinningMove(b, col, p) <==> Playable(b, col) && HasRun(Drop(b, col, p), p)
  {
    HasFourIffRun(Drop(b, col, p), p);
  }

  // ---------------------------------------------------------------------------
  // Turn inference
  // ---------------------------------------------------------------------------

  /** P1 moves when both players have placed equally many pieces, P2 otherwise. */
  function PlayerToMove(b: Board): (p: int)
    requires WellFormed(b)
    ensures IsPlayer(p)
    ensures p == P1 <==> CountBoard(b, P1) == CountBoard(b, P2)
  {
    if CountBoard(b, P1) == CountBoard(b, P2) then P1 else P2
  }

  /** The piece counts of a game in which P1 moved first: equal, or P1 one ahead. */
  predicate Balanced(b: Board)
    requires WellFormed(b)
  {
    CountBoard(b, P1) == CountBoard(b, P2) || CountBoard(b, P1) == CountBoard(b, P2) + 1
  }

  /**
   * The turn rule hands the move back and forth: on balanced counts, the
   * player to move dropping into a playable column keeps the counts balanced
   * and gives the move to the other player.
   */
  lemma PlayerToMoveAlternates(b: Board, c: int)
    requires WellFormed(b) && Playable(b, c) && Balanced(b)
    ensures var nb := Drop(b, c, PlayerToMove(b));
            Balanced(nb) && PlayerToMove(nb) == -PlayerToMove(b)
  {
    var row := LowestEmpty(b, c);
    assert row >= 0;
    CountBoardUpdate(b, row, c, PlayerToMove(b), P1);
    CountBoardUpdate(b, row, c, PlayerToMove(b), P2);
  }

  // ---------------------------------------------------------------------------
  // Heuristic
  // ---------------------------------------------------------------------------

  /**
   * The score of one window from me's point of view: nothing for a window
   * both players occupy, otherwise the fixed table of own/empty and
   * opponent/empty counts (blocking weighs more than building).
   */
  function WScore(w: seq<int>, me: int): (s: int)
    requires |w| == 4 && IsPlayer(me)
    ensures Count(w, me) > 0 && Count(w, -me) > 0 ==> s == 0
    ensures s == 100 <==> Count(w, me) == 3 && Count(w, EMPTY) == 1
    ensures s == 10 <==> Count(w, me) == 2 && Count(w, EMPTY) == 2
    ensures s == 1 <==> Count(w, me) == 1 && Count(w, EMPTY) == 3
    ensures s == -80 <==> Count(w, -me) == 3 && Count(w, EMPTY) == 1
    ensures s == -8 <==> Count(w, -me) == 2 && Count(w, EMPTY) == 2
    ensures s in {100, 10, 1, 0, -8, -80}
  {
    var myc := Count(w, me);
    var opc := Count(w, -me);
    var emp := Count(w, EMPTY);
    CountDistinct(w, me, -me, EMPTY);
    if myc > 0 && opc > 0 then 0
    else if myc == 3 && emp == 1 then 100
    else if myc == 2 && emp == 2 then 10
    else if myc == 1 && emp == 3 then 1
    else if opc == 3 && emp == 1 then -80
    else if opc == 2 && emp == 2 then -8
    else 0
  }

  function SumWindows(b: Board, me: int, ls: seq<Line>): int
    requires WellFormed(b) && IsPlayer(me)
    requires forall i :: 0 <= i < |ls| ==> Fits(ls[i])
  {
    if ls == [] then 0 else WScore(Window(b, ls[0]), me) + SumWindows(b, me, ls[1..])
  }

  /** The cells of column c, top to bottom. */
  function Column(b: Board, c: int): (col: seq<int>)
    requires WellFormed(b) && 0 <= c < COLS
    ensures |col| == ROWS && forall r :: 0 <= r < ROWS ==> col[r] == b[r][c]
  {
    seq(ROWS, r requires 0 <= r < ROWS => b[r][c])
  }

  /** Three points per own piece in the centre column, minus three per opponent piece, plus every window's score. */
  function Eval(b: Board, me: int): int
    requires WellFormed(b) && IsPlayer(me)
  {
    WindowsFit();
    3 * Count(Column(b, CENTRE), me) - 3 * Count(Column(b, CENTRE), -me) + SumWindows(b, me, Windows())
  }

  /** Every window scores between -80 and 100, so a list of windows scores within those multiples. */
  lemma {:induction false} SumWindowsBound(b: Board, me: int, ls: seq<Line>)
    requires WellFormed(b) && IsPlayer(me)
    requires forall i :: 0 <= i < |ls| ==> Fits(ls[i])
    ensures -80 * |ls| <= SumWindows(b, me, ls) <= 100 * |ls|
  {
    if ls != [] {
      SumWindowsBound(b, me, ls[1..]);
    }
  }

  /** A board with no pieces on it. */
  predicate Bare(b: Board)
    requires WellFormed(b)
  {
    forall r, c :: 0 <= r < ROWS && 0 <= c < COLS ==> b[r][c] == EMPTY
  }

  /**
   * The heuristic is bounded: at most 6 centre pieces either way and 69
   * windows each between -80 and 100.
   */
  lemma EvalBound(b: Board, me: int)
    requires WellFormed(b) && IsPlayer(me)
    ensures -3 * ROWS - 80 * 69 <= Eval(b, me) <= 3 * ROWS + 100 * 69
  {
    WindowsFit();
    SumWindowsBound(b, me, Windows());
  }
}
