/**
 * The move choice of the minimax agent (UCB1Agent.act): infer whose turn it
 * is, take an immediate win, else block the opponent's immediate win, else
 * search the "safe" columns with alpha-beta and break ties towards the centre.
 */
module Agent {

  import opened Options
  import opened Grid
  import opened Policy
  import opened Search

  predicate Ascending(s: seq<int>) {
    forall i, j :: 0 <= i < j < |s| ==> s[i] < s[j]
  }

  predicate InColumns(cols: seq<int>) {
    forall i :: 0 <= i < |cols| ==> 0 <= cols[i] < COLS
  }

  // ---------------------------------------------------------------------------
  // Scanning column lists
  // ---------------------------------------------------------------------------

  /** No element of s before position k + 1 passes test when s[0] fails it and no element of s[1..] before k passes. */
  lemma NoneBeforeShift(s: seq<int>, test: int -> bool, k: int)
    requires 0 <= k < |s| - 1 && !test(s[0])
    requires forall j :: 0 <= j < k ==> !test(s[1..][j])
    ensures forall j :: 0 <= j < k + 1 ==> !test(s[j])
  {
    forall j | 0 <= j < k + 1 ensures !test(s[j]) {
      if j > 0 { assert s[j] == s[1..][j - 1]; }
    }
  }

  /** The first element of s satisfying test, if any. */
  function FirstWhere(s: seq<int>, test: int -> bool): (r: Option<int>)
    ensures r.None? <==> forall i :: 0 <= i < |s| ==> !test(s[i])
    ensures r.Some? ==> r.value in s && test(r.value)
    ensures r.Some? ==> exists k :: 0 <= k < |s| && s[k] == r.value && forall j :: 0 <= j < k ==> !test(s[j])
    ensures r.Some? && Ascending(s) ==> forall x :: x in s && x < r.value ==> !test(x)
  {
    if s == [] then None
    else if test(s[0]) then
      Some(s[0])
    else
      var r := FirstWhere(s[1..], test);
      assert forall x :: x in s ==> x == s[0] || x in s[1..];
      if r.Some? then
        var k :| 0 <= k < |s[1..]| && s[1..][k] == r.value && forall j :: 0 <= j < k ==> !test(s[1..][j]);
        assert s[k + 1] == r.value;
        NoneBeforeShift(s, test, k);
        r
      else r
  }

  /** The elements of s satisfying test, in their original order. */
  function Filter(s: seq<int>, test: int -> bool): (r: seq<int>)
    ensures forall x :: x in r <==> x in s && test(x)
    ensures Ascending(s) ==> Ascending(r)
  {
    if s == [] then []
    else
      var rest := Filter(s[1..], test);
      if test(s[0]) then
        assert forall k :: 0 <= k < |rest| ==> rest[k] in s[1..];
        [s[0]] + rest
      else rest
  }

  // ---------------------------------------------------------------------------
  // Shortcuts
  // ---------------------------------------------------------------------------

  /**
   * The first column of cols where p wins on the spot, if any; on an
   * ascending list that is the lowest winning column.
   */
  function FirstWinning(b: Board, cols: seq<int>, p: int): (r: Option<int>)
    requires WellFormed(b) && InColumns(cols)
    ensures r.None? <==> forall x :: x in cols ==> !IsWinningMove(b, x, p)
    ensures r.Some? ==> r.value in cols && IsWinningMove(b, r.value, p)
    ensures r.Some? ==> exists k :: 0 <= k < |cols| && cols[k] == r.value
                                    && forall j :: 0 <= j < k ==> !IsWinningMove(b, cols[j], p)
    ensures r.Some? && Ascending(cols) ==> forall x :: x in cols && x < r.value ==> !IsWinningMove(b, x, p)
  {
    FirstWhere(cols, c => 0 <= c < COLS && IsWinningMove(b, c, p))
  }

  /**
   * Scanning the playable columns in ascending order finds p's lowest
   * winning column, and finds nothing exactly when p has no winning column.
   */
  lemma LowestWinning(b: Board, p: int)
    requires WellFormed(b)
    ensures var r := FirstWinning(b, ValidCols(b), p);
            && (r.None? <==> forall c :: Playable(b, c) ==> !IsWinningMove(b, c, p))
            && (r.Some? ==> Playable(b, r.value) && IsWinningMove(b, r.value, p))
            && (r.Some? ==> forall c :: Playable(b, c) && c < r.value ==> !IsWinningMove(b, c, p))
  {
    var valid := ValidCols(b);
    assert InColumns(valid) && Ascending(valid);
    assert forall c :: Playable(b, c) <==> c in valid;
  }

  /** After me plays col, none of opp's playable replies wins at once. */
  predicate IsSafe(b: Board, col: int, me: int, opp: int)
    requires WellFormed(b) && 0 <= col < COLS
  {
    var nb := Drop(b, col, me);
    FirstWinning(nb, ValidCols(nb), opp).None?
  }

  /** The columns of cols that are safe for me, in their original order. */
  function SafeCols(b: Board, cols: seq<int>, me: int, opp: int): (r: seq<int>)
    requires WellFormed(b) && InColumns(cols)
    ensures InColumns(r)
    ensures forall x :: x in r <==> x in cols && IsSafe(b, x, me, opp)
    ensures Ascending(cols) ==> Ascending(r)
  {
    var r := Filter(cols, c => 0 <= c < COLS && IsSafe(b, c, me, opp));
    assert forall i :: 0 <= i < |r| ==> r[i] in r;
    r
  }

  /** The columns the search ranks: the safe ones, or every playable one when none is safe. */
  function Candidates(b: Board, me: int, opp: int): (cands: seq<int>)
    requires WellFormed(b)
    ensures Ascending(cands) && AllPlayable(b, cands)
    ensures ValidCols(b) != [] ==> cands != []
    ensures forall x :: x in cands ==> Playable(b, x)
    ensures (exists x :: Playable(b, x) && IsSafe(b, x, me, opp)) ==>
              forall x :: x in cands <==> Playable(b, x) && IsSafe(b, x, me, opp)
    ensures (forall x :: Playable(b, x) ==> !IsSafe(b, x, me, opp)) ==> cands == ValidCols(b)
  {
    var valid := ValidCols(b);
    var safe := SafeCols(b, valid, me, opp);
    if safe != [] then
      assert safe[0] in valid && IsSafe(b, safe[0], me, opp);
      safe
    else valid
  }

  // ---------------------------------------------------------------------------
  // Root search and tie-break
  // ---------------------------------------------------------------------------

  /**
   * The root loop over the candidates: each is scored by the min-node search
   * one ply shallower with the window (alpha, +inf); a strictly better score
   * restarts the list of best columns and raises alpha, an equal one joins it.
   */
  function RootLoop(b: Board, cands: seq<int>, depth: int, me: int, opp: int,
                    best: ExtInt, bestCols: seq<int>, alpha: ExtInt): (r: (ExtInt, seq<int>))
    requires WellFormed(b) && Sides(me, opp) && AllPlayable(b, cands)
    requires best != PosInf && (best.Fin? ==> bestCols != [])
    ensures cands != [] || bestCols != [] ==> r.1 != []
    ensures forall x :: x in r.1 ==> x in bestCols || x in cands
  {
    if cands == [] then (best, bestCols)
    else
      var c := cands[0];
      var score := MinValue(Drop(b, c, me), depth - 1, alpha, PosInf, me, opp);
      if Lt(best, Fin(score)) then RootLoop(b, cands[1..], depth, me, opp, Fin(score), [c], Max(alpha, Fin(score)))
      else if best == Fin(score) then RootLoop(b, cands[1..], depth, me, opp, best, bestCols + [c], alpha)
      else RootLoop(b, cands[1..], depth, me, opp, best, bestCols, alpha)
  }

  /** The exact minimax value of playing column c at the root. */
  function RootValue(b: Board, c: int, depth: int, me: int, opp: int): ExtInt
    requires WellFormed(b) && Sides(me, opp) && 0 <= c < COLS
  {
    Fin(Minimin(Drop(b, c, me), depth - 1, me, opp))
  }

  /**
   * The root loop's state between candidates: alpha equals the best score
   * so far; every kept column is worth at most that score, and the first
   * kept column exactly that.
   */
  predicate RootState(b: Board, cands: seq<int>, depth: int, me: int, opp: int,
                      best: ExtInt, bestCols: seq<int>, alpha: ExtInt)
    requires WellFormed(b) && Sides(me, opp)
  {
    && AllPlayable(b, cands) && InColumns(bestCols)
    && alpha == best && best != PosInf && (best.Fin? ==> bestCols != [])
    && (forall x :: x in bestCols ==> Le(RootValue(b, x, depth, me, opp), best))
    && (bestCols != [] ==> RootValue(b, bestCols[0], depth, me, opp) == best)
  }

  /**
   * What the root loop returns from that state: the best score is the exact
   * best minimax value over the columns seen; every kept column is worth at
   * most that, the first one exactly that; every remaining candidate worth
   * exactly that is kept, and so are the columns already kept if the best
   * score did not move.
   */
  ghost predicate RootResult(b: Board, cands: seq<int>, depth: int, me: int, opp: int,
                             best: ExtInt, bestCols: seq<int>, r: (ExtInt, seq<int>))
    requires WellFormed(b) && Sides(me, opp) && AllPlayable(b, cands)
  {
    && r.0 == Max(best, BestOf(b, cands, depth, me, opp))
    && (forall x :: x in r.1 ==> 0 <= x < COLS && Le(RootValue(b, x, depth, me, opp), r.0))
    && (r.1 != [] ==> 0 <= r.1[0] < COLS && RootValue(b, r.1[0], depth, me, opp) == r.0)
    && (forall x :: x in cands && RootValue(b, x, depth, me, opp) == r.0 ==> x in r.1)
    && (r.0 == best ==> forall x :: x in bestCols ==> x in r.1)
  }

  /** The root loop, started with alpha equal to the best score so far, computes the exact root values. */
  lemma {:induction false} RootLoopSound(b: Board, cands: seq<int>, depth: int, me: int, opp: int,
                                         best: ExtInt, bestCols: seq<int>, alpha: ExtInt)
    requires WellFormed(b) && Sides(me, opp)
    requires RootState(b, cands, depth, me, opp, best, bestCols, alpha)
    ensures RootResult(b, cands, depth, me, opp, best, bestCols, RootLoop(b, cands, depth, me, opp, best, bestCols, alpha))
    decreases |cands|, 1
  {
    if cands != [] {
      var s := MinValue(Drop(b, cands[0], me), depth - 1, alpha, PosInf, me, opp);
      if Lt(best, Fin(s)) {
        RootBetter(b, cands, depth, me, opp, best, bestCols, alpha);
      } else if best == Fin(s) {
        RootTie(b, cands, depth, me, opp, best, bestCols, alpha);
      } else {
        RootWorse(b, cands, depth, me, opp, best, bestCols, alpha);
      }
    }
  }

  /** A candidate scoring above the best so far is exact, and restarts the kept list. */
  lemma {:induction false} RootBetter(b: Board, cands: seq<int>, depth: int, me: int, opp: int,
                                      best: ExtInt, bestCols: seq<int>, alpha: ExtInt)
    requires WellFormed(b) && Sides(me, opp)
    requires RootState(b, cands, depth, me, opp, best, bestCols, alpha) && cands != []
    requires Lt(best, Fin(MinValue(Drop(b, cands[0], me), depth - 1, alpha, PosInf, me, opp)))
    ensures RootResult(b, cands, depth, me, opp, best, bestCols, RootLoop(b, cands, depth, me, opp, best, bestCols, alpha))
    decreases |cands|, 0
  {
    var c := cands[0];
    var nb := Drop(b, c, me);
    var s := MinValue(nb, depth - 1, alpha, PosInf, me, opp);
    MinValueFailSoft(nb, depth - 1, alpha, PosInf, me, opp);
    assert RootValue(b, c, depth, me, opp) == Fin(s);
    RootLoopSound(b, cands[1..], depth, me, opp, Fin(s), [c], Max(alpha, Fin(s)));
  }

  /** A candidate scoring exactly the best so far is worth at most that, and joins the kept list. */
  lemma {:induction false} RootTie(b: Board, cands: seq<int>, depth: int, me: int, opp: int,
                                   best: ExtInt, bestCols: seq<int>, alpha: ExtInt)
    requires WellFormed(b) && Sides(me, opp)
    requires RootState(b, cands, depth, me, opp, best, bestCols, alpha) && cands != []
    requires best == Fin(MinValue(Drop(b, cands[0], me), depth - 1, alpha, PosInf, me, opp))
    ensures RootResult(b, cands, depth, me, opp, best, bestCols, RootLoop(b, cands, depth, me, opp, best, bestCols, alpha))
    decreases |cands|, 0
  {
    var c := cands[0];
    var nb := Drop(b, c, me);
    MinValueFailSoft(nb, depth - 1, alpha, PosInf, me, opp);
    assert Le(RootValue(b, c, depth, me, opp), best);
    var kept := bestCols + [c];
    assert kept[0] == bestCols[0];
    assert forall x :: x in kept <==> x in bestCols || x == c;
    assert RootState(b, cands[1..], depth, me, opp, best, kept, alpha);
    RootLoopSound(b, cands[1..], depth, me, opp, best, kept, alpha);
    TieResult(b, cands, depth, me, opp, best, bestCols, RootLoop(b, cands[1..], depth, me, opp, best, kept, alpha));
  }

  /** The tied candidate's result for the rest of the list is the result for the whole list. */
  lemma TieResult(b: Board, cands: seq<int>, depth: int, me: int, opp: int,
                  best: ExtInt, bestCols: seq<int>, r: (ExtInt, seq<int>))
    requires WellFormed(b) && Sides(me, opp) && AllPlayable(b, cands) && cands != [] && best != PosInf
    requires Le(RootValue(b, cands[0], depth, me, opp), best)
    requires RootResult(b, cands[1..], depth, me, opp, best, bestCols + [cands[0]], r)
    ensures RootResult(b, cands, depth, me, opp, best, bestCols, r)
  {
    var c := cands[0];
    assert forall x :: x in bestCols + [c] <==> x in bestCols || x == c;
    assert forall x :: x in cands <==> x == c || x in cands[1..];
    assert BestOf(b, cands, depth, me, opp) == Max(RootValue(b, c, depth, me, opp), BestOf(b, cands[1..], depth, me, opp));
  }

  /** A candidate scoring below the best so far is worth less than it, and is dropped. */
  lemma {:induction false} RootWorse(b: Board, cands: seq<int>, depth: int, me: int, opp: int,
                                     best: ExtInt, bestCols: seq<int>, alpha: ExtInt)
    requires WellFormed(b) && Sides(me, opp)
    requires RootState(b, cands, depth, me, opp, best, bestCols, alpha) && cands != []
    requires var s := MinValue(Drop(b, cands[0], me), depth - 1, alpha, PosInf, me, opp);
             !Lt(best, Fin(s)) && best != Fin(s)
    ensures RootResult(b, cands, depth, me, opp, best, bestCols, RootLoop(b, cands, depth, me, opp, best, bestCols, alpha))
    decreases |cands|, 0
  {
    var c := cands[0];
    var nb := Drop(b, c, me);
    MinValueFailSoft(nb, depth - 1, alpha, PosInf, me, opp);
    assert Lt(RootValue(b, c, depth, me, opp), best);
    RootLoopSound(b, cands[1..], depth, me, opp, best, bestCols, alpha);
  }

  /**
   * The root loop keeps its columns in ascending order when the candidates
   * come in ascending order after every column already kept.
   */
  lemma {:induction false} RootLoopAscending(b: Board, cands: seq<int>, depth: int, me: int, opp: int,
                                             best: ExtInt, bestCols: seq<int>, alpha: ExtInt)
    requires WellFormed(b) && Sides(me, opp) && AllPlayable(b, cands)
    requires best != PosInf && (best.Fin? ==> bestCols != [])
    requires Ascending(cands) && Ascending(bestCols)
    requires forall i, j :: 0 <= i < |bestCols| && 0 <= j < |cands| ==> bestCols[i] < cands[j]
    ensures Ascending(RootLoop(b, cands, depth, me, opp, best, bestCols, alpha).1)
    decreases |cands|
  {
    if cands != [] {
      var c := cands[0];
      var rest := cands[1..];
      assert forall j :: 0 <= j < |rest| ==> rest[j] == cands[j + 1];
      var score := MinValue(Drop(b, c, me), depth - 1, alpha, PosInf, me, opp);
      if Lt(best, Fin(score)) {
        RootLoopAscending(b, rest, depth, me, opp, Fin(score), [c], Max(alpha, Fin(score)));
      } else if best == Fin(score) {
        var kept := bestCols + [c];
        assert forall i :: 0 <= i < |bestCols| ==> kept[i] == bestCols[i];
        assert kept[|bestCols|] == c;
        RootLoopAscending(b, rest, depth, me, opp, best, kept, alpha);
      } else {
        RootLoopAscending(b, rest, depth, me, opp, best, bestCols, alpha);
      }
    }
  }

  /** How far column c is from the centre column. */
  function Dist(c: int): nat {
    if c >= CENTRE then c - CENTRE else CENTRE - c
  }

  /**
   * The first column of cols among those nearest the centre, which is what a
   * stable sort by distance followed by taking the head yields.
   */
  function ClosestToCentre(cols: seq<int>): (r: int)
    requires cols != []
    ensures r in cols
    ensures forall x :: x in cols ==> Dist(r) <= Dist(x)
    ensures exists k :: 0 <= k < |cols| && cols[k] == r && forall j :: 0 <= j < k ==> Dist(r) < Dist(cols[j])
  {
    if |cols| == 1 then cols[0]
    else
      var r := ClosestToCentre(cols[1..]);
      if Dist(cols[0]) <= Dist(r) then cols[0]
      else
        var k :| 0 <= k < |cols[1..]| && cols[1..][k] == r && forall j :: 0 <= j < k ==> Dist(r) < Dist(cols[1..][j]);
        assert cols[k + 1] == r;
        r
  }

  /**
   * In an ascending list, the entry at k that is strictly nearer the centre
   * than every entry before it is the lowest entry at its distance.
   */
  lemma FirstNearestIsLowest(cols: seq<int>, k: int)
    requires Ascending(cols) && 0 <= k < |cols|
    requires forall j :: 0 <= j < k ==> Dist(cols[k]) < Dist(cols[j])
    ensures forall x :: x in cols && Dist(x) == Dist(cols[k]) ==> cols[k] <= x
  {
    forall x | x in cols && Dist(x) == Dist(cols[k]) ensures cols[k] <= x {
      var j :| 0 <= j < |cols| && cols[j] == x;
      assert forall i :: 0 <= i < k ==> cols[i] != x;
    }
  }

  /**
   * On an ascending list the tie-break prefers the lower of two columns
   * equally near the centre, as the stable sort keeps them in list order.
   */
  lemma ClosestLowest(cols: seq<int>)
    requires cols != [] && Ascending(cols)
    ensures forall x :: x in cols && Dist(x) == Dist(ClosestToCentre(cols)) ==> ClosestToCentre(cols) <= x
  {
    var r := ClosestToCentre(cols);
    var k :| 0 <= k < |cols| && cols[k] == r && forall j :: 0 <= j < k ==> Dist(r) < Dist(cols[j]);
    FirstNearestIsLowest(cols, k);
  }

  // ---------------------------------------------------------------------------
  // act
  // ---------------------------------------------------------------------------

  /**
   * The agent's move on b with search depth depth: 0 when no column is
   * playable; otherwise a playable column chosen by the shortcut cascade
   * (win, then block) or, failing both, by the root search.
   */
  function Act(b: Board, depth: int): (r: int)
    requires WellFormed(b)
    ensures ValidCols(b) == [] ==> r == 0
    ensures ValidCols(b) != [] ==> Playable(b, r)
  {
    var valid := ValidCols(b);
    if valid == [] then 0
    else
      var me := PlayerToMove(b);
      var opp := -me;
      match FirstWinning(b, valid, me)
      case Some(c) => c
      case None =>
        match FirstWinning(b, valid, opp)
        case Some(c) => c
        case None => SearchMove(b, depth, me, opp)
  }

  /**
   * The search part of act: rank the candidates with the root loop and take
   * the best-scoring column nearest the centre.
   */
  function SearchMove(b: Board, depth: int, me: int, opp: int): (r: int)
    requires WellFormed(b) && Sides(me, opp) && ValidCols(b) != []
    ensures r in Candidates(b, me, opp)
  {
    var cands := Candidates(b, me, opp);
    var (best, bestCols) := RootLoop(b, cands, depth, me, opp, NegInf, [], NegInf);
    ClosestToCentre(bestCols)
  }

  /**
   * The searched move is worth at most the best minimax value over the
   * candidates, some candidate reaches that value, and the move is no
   * farther from the centre than any candidate that reaches it, nor above
   * one that reaches it at the same distance.
   */
  lemma SearchMoveNearOptimal(b: Board, depth: int, me: int, opp: int)
    requires WellFormed(b) && Sides(me, opp) && ValidCols(b) != []
    ensures var cands := Candidates(b, me, opp);
            var v := BestOf(b, cands, depth, me, opp);
            var r := SearchMove(b, depth, me, opp);
            && 0 <= r < COLS
            && Le(RootValue(b, r, depth, me, opp), v)
            && (exists x :: x in cands && RootValue(b, x, depth, me, opp) == v)
            && (forall x :: x in cands && RootValue(b, x, depth, me, opp) == v ==> Dist(r) <= Dist(x))
            && forall x :: x in cands && RootValue(b, x, depth, me, opp) == v && Dist(x) == Dist(r) ==> r <= x
  {
    var cands := Candidates(b, me, opp);
    var v := BestOf(b, cands, depth, me, opp);
    assert RootState(b, cands, depth, me, opp, NegInf, [], NegInf);
    RootLoopSound(b, cands, depth, me, opp, NegInf, [], NegInf);
    var r := RootLoop(b, cands, depth, me, opp, NegInf, [], NegInf);
    assert RootResult(b, cands, depth, me, opp, NegInf, [], r);
    assert r.0 == v;
    assert r.1 != [] && r.1[0] in r.1;
    RootLoopAscending(b, cands, depth, me, opp, NegInf, [], NegInf);
    ClosestLowest(r.1);
    var m := ClosestToCentre(r.1);
    assert SearchMove(b, depth, me, opp) == m;
    assert r.1[0] in cands && RootValue(b, r.1[0], depth, me, opp) == v;
  }

  /** When the player to move can win at once, act plays the lowest winning column. */
  lemma ActTakesWin(b: Board, depth: int)
    requires WellFormed(b)
    ensures var me := PlayerToMove(b);
            (exists c :: Playable(b, c) && IsWinningMove(b, c, me)) ==>
              && IsWinningMove(b, Act(b, depth), me)
              && forall c :: Playable(b, c) && c < Act(b, depth) ==> !IsWinningMove(b, c, me)
  {
    LowestWinning(b, PlayerToMove(b));
  }

  /** The block step in terms of the two scans: mine finds nothing, the opponent's finds a column. */
  lemma BlockScan(b: Board, depth: int)
    requires WellFormed(b)
    requires FirstWinning(b, ValidCols(b), PlayerToMove(b)).None?
    requires FirstWinning(b, ValidCols(b), -PlayerToMove(b)).Some?
    ensures IsWinningMove(b, Act(b, depth), -PlayerToMove(b))
    ensures forall c :: Playable(b, c) && c < Act(b, depth) ==> !IsWinningMove(b, c, -PlayerToMove(b))
  {
    LowestWinning(b, -PlayerToMove(b));
  }

  /**
   * When the player to move cannot win at once but the opponent could, act
   * blocks the opponent's lowest winning column.
   */
  lemma ActBlocks(b: Board, depth: int)
    requires WellFormed(b)
    ensures var me := PlayerToMove(b);
            (forall c :: Playable(b, c) ==> !IsWinningMove(b, c, me))
            && (exists c :: Playable(b, c) && IsWinningMove(b, c, -me)) ==>
              && IsWinningMove(b, Act(b, depth), -me)
              && forall c :: Playable(b, c) && c < Act(b, depth) ==> !IsWinningMove(b, c, -me)
  {
    LowestWinning(b, PlayerToMove(b));
    LowestWinning(b, -PlayerToMove(b));
    if FirstWinning(b, ValidCols(b), PlayerToMove(b)).None? && FirstWinning(b, ValidCols(b), -PlayerToMove(b)).Some? {
      BlockScan(b, depth);
    }
  }

  /** With no immediate win or block available, act plays one of the searched candidates. */
  lemma ActSearches(b: Board, depth: int)
    requires WellFormed(b) && ValidCols(b) != []
    ensures var me := PlayerToMove(b);
            (forall c :: Playable(b, c) ==> !IsWinningMove(b, c, me) && !IsWinningMove(b, c, -me)) ==>
              Act(b, depth) == SearchMove(b, depth, me, -me)
  {
    LowestWinning(b, PlayerToMove(b));
    LowestWinning(b, -PlayerToMove(b));
  }
}
