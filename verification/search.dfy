/**
 * The depth-limited minimax search of the agent: fail-soft alpha-beta
 * (_max_value / _min_value) over the natural column order, and the unpruned
 * minimax value it is proved to bound.
 *
 * _max_value and _min_value seed their bounds with float infinities; here
 * they are the two ends of ExtInt. Recursion ends because every explored
 * move fills a free cell, so the depth is an arbitrary int as the program
 * does (a depth that is never 0 on the way down searches until the game
 * ends).
 */
module Search {

  import opened Grid
  import opened Policy

  /** The integers extended with the two infinities. */
  datatype ExtInt = NegInf | Fin(n: int) | PosInf

  predicate Le(a: ExtInt, b: ExtInt) {
    match (a, b)
    case (NegInf, _) => true
    case (_, PosInf) => true
    case (Fin(x), Fin(y)) => x <= y
    case _ => false
  }

  predicate Lt(a: ExtInt, b: ExtInt) {
    !Le(b, a)
  }

  function Max(a: ExtInt, b: ExtInt): (m: ExtInt)
    ensures Le(a, m) && Le(b, m) && (m == a || m == b)
  {
    if Le(a, b) then b else a
  }

  function Min(a: ExtInt, b: ExtInt): (m: ExtInt)
    ensures Le(m, a) && Le(m, b) && (m == a || m == b)
  {
    if Le(a, b) then a else b
  }

  /** The value the search gives a decided position: wins sooner and losses later score further from zero. */
  const WIN: int := 10000

  /** What both players' moves are searched with: the searching player and its opponent. */
  predicate Sides(me: int, opp: int) {
    IsPlayer(me) && opp == -me
  }

  /** Every column of cols can be played on b. */
  predicate AllPlayable(b: Board, cols: seq<int>)
    requires WellFormed(b)
  {
    forall i :: 0 <= i < |cols| ==> Playable(b, cols[i])
  }

  // ---------------------------------------------------------------------------
  // Fail-soft alpha-beta, as the agent runs it
  // ---------------------------------------------------------------------------

  /** The value of b with me to move, searched d plies deep inside the window (alpha, beta). */
  function MaxValue(b: Board, d: int, alpha: ExtInt, beta: ExtInt, me: int, opp: int): int
    requires WellFormed(b) && Sides(me, opp)
    decreases EmptyCount(b), 1
  {
    if HasFour(b, me) then WIN + d
    else if HasFour(b, opp) then -WIN - d
    else if d == 0 then Eval(b, me)
    else
      match MaxLoop(b, ValidCols(b), d, NegInf, alpha, beta, me, opp)
      case Fin(v) => v
      case _ => Eval(b, me)
  }

  /**
   * The loop over me's moves: v is the best value seen so far, a child whose
   * value reaches beta cuts the loop off, and alpha rises with v.
   */
  function MaxLoop(b: Board, cols: seq<int>, d: int, v: ExtInt, alpha: ExtInt, beta: ExtInt, me: int, opp: int): (r: ExtInt)
    requires WellFormed(b) && Sides(me, opp) && AllPlayable(b, cols) && v != PosInf
    ensures cols == [] ==> r == v
    ensures cols != [] ==> r.Fin?
    decreases EmptyCount(b), 0, |cols|
  {
    if cols == [] then v
    else
      var s := MinValue(Drop(b, cols[0], me), d - 1, alpha, beta, me, opp);
      var v' := Max(v, Fin(s));
      if Le(beta, v') then v'
      else MaxLoop(b, cols[1..], d, v', Max(alpha, v'), beta, me, opp)
  }

  /** The value of b with opp to move, still from me's point of view. */
  function MinValue(b: Board, d: int, alpha: ExtInt, beta: ExtInt, me: int, opp: int): int
    requires WellFormed(b) && Sides(me, opp)
    decreases EmptyCount(b), 1
  {
    if HasFour(b, me) then WIN + d
    else if HasFour(b, opp) then -WIN - d
    else if d == 0 then Eval(b, me)
    else
      match MinLoop(b, ValidCols(b), d, PosInf, alpha, beta, me, opp)
      case Fin(v) => v
      case _ => Eval(b, me)
  }

  /** The loop over opp's replies: a child at or below alpha cuts it off, and beta falls with v. */
  function MinLoop(b: Board, cols: seq<int>, d: int, v: ExtInt, alpha: ExtInt, beta: ExtInt, me: int, opp: int): (r: ExtInt)
    requires WellFormed(b) && Sides(me, opp) && AllPlayable(b, cols) && v != NegInf
    ensures cols == [] ==> r == v
    ensures cols != [] ==> r.Fin?
    decreases EmptyCount(b), 0, |cols|
  {
    if cols == [] then v
    else
      var s := MaxValue(Drop(b, cols[0], opp), d - 1, alpha, beta, me, opp);
      var v' := Min(v, Fin(s));
      if Le(v', alpha) then v'
      else MinLoop(b, cols[1..], d, v', alpha, Min(beta, v'), me, opp)
  }

  /**
   * Both searches score a decided position before looking at the depth: a
   * four of me's is worth WIN + d and one of opp's -WIN - d; otherwise at
   * depth 0, or with no playable column, the heuristic decides.
   */
  lemma LeafValues(b: Board, d: int, alpha: ExtInt, beta: ExtInt, me: int, opp: int)
    requires WellFormed(b) && Sides(me, opp)
    ensures HasFour(b, me) ==>
              MaxValue(b, d, alpha, beta, me, opp) == WIN + d && MinValue(b, d, alpha, beta, me, opp) == WIN + d
    ensures !HasFour(b, me) && HasFour(b, opp) ==>
              MaxValue(b, d, alpha, beta, me, opp) == -WIN - d && MinValue(b, d, alpha, beta, me, opp) == -WIN - d
    ensures !HasFour(b, me) && !HasFour(b, opp) && (d == 0 || forall c :: !Playable(b, c)) ==>
              MaxValue(b, d, alpha, beta, me, opp) == Eval(b, me) && MinValue(b, d, alpha, beta, me, opp) == Eval(b, me)
  {
    if ValidCols(b) != [] {
      assert Playable(b, ValidCols(b)[0]);
    }
  }

  /**
   * A decided position outranks every undecided one: at a non-negative depth
   * a four of me's scores above the heuristic of any board, and a four of
   * opp's below it, so the search never prefers a heuristic guess to a win or
   * a loss to a heuristic guess.
   */
  lemma FourOutranksHeuristic(b: Board, other: Board, d: int, alpha: ExtInt, beta: ExtInt, me: int, opp: int)
    requires WellFormed(b) && WellFormed(other) && Sides(me, opp) && d >= 0
    ensures HasFour(b, me) ==>
              Eval(other, me) < MaxValue(b, d, alpha, beta, me, opp) && Eval(other, me) < MinValue(b, d, alpha, beta, me, opp)
    ensures !HasFour(b, me) && HasFour(b, opp) ==>
              MaxValue(b, d, alpha, beta, me, opp) < Eval(other, me) && MinValue(b, d, alpha, beta, me, opp) < Eval(other, me)
  {
    LeafValues(b, d, alpha, beta, me, opp);
    EvalBound(other, me);
  }

  // ---------------------------------------------------------------------------
  // Plain minimax, the value the pruned search approximates
  // ---------------------------------------------------------------------------

  /** The exact depth-d minimax value of b with me to move. */
  function Minimax(b: Board, d: int, me: int, opp: int): int
    requires WellFormed(b) && Sides(me, opp)
    decreases EmptyCount(b), 1
  {
    if HasFour(b, me) then WIN + d
    else if HasFour(b, opp) then -WIN - d
    else if d == 0 then Eval(b, me)
    else
      match BestOf(b, ValidCols(b), d, me, opp)
      case Fin(v) => v
      case _ => Eval(b, me)
  }

  /** The largest minimax value over me's moves in cols (NegInf when there are none). */
  function BestOf(b: Board, cols: seq<int>, d: int, me: int, opp: int): (r: ExtInt)
    requires WellFormed(b) && Sides(me, opp) && AllPlayable(b, cols)
    ensures cols == [] <==> r == NegInf
    ensures r != PosInf
    decreases EmptyCount(b), 0, |cols|
  {
    if cols == [] then NegInf
    else Max(Fin(Minimin(Drop(b, cols[0], me), d - 1, me, opp)), BestOf(b, cols[1..], d, me, opp))
  }

  /** The exact depth-d minimax value of b with opp to move. */
  function Minimin(b: Board, d: int, me: int, opp: int): int
    requires WellFormed(b) && Sides(me, opp)
    decreases EmptyCount(b), 1
  {
    if HasFour(b, me) then WIN + d
    else if HasFour(b, opp) then -WIN - d
    else if d == 0 then Eval(b, me)
    else
      match WorstOf(b, ValidCols(b), d, me, opp)
      case Fin(v) => v
      case _ => Eval(b, me)
  }

  /** The smallest minimax value over opp's replies in cols (PosInf when there are none). */
  function WorstOf(b: Board, cols: seq<int>, d: int, me: int, opp: int): (r: ExtInt)
    requires WellFormed(b) && Sides(me, opp) && AllPlayable(b, cols)
    ensures cols == [] <==> r == PosInf
    ensures r != NegInf
    decreases EmptyCount(b), 0, |cols|
  {
    if cols == [] then PosInf
    else Min(Fin(Minimax(Drop(b, cols[0], opp), d - 1, me, opp)), WorstOf(b, cols[1..], d, me, opp))
  }

  // ---------------------------------------------------------------------------
  // The fail-soft guarantee
  // ---------------------------------------------------------------------------

  /**
   * r is a fail-soft answer for the true value t in the window (alpha, beta):
   * exact strictly inside the window, an upper bound at or below alpha, a
   * lower bound at or above beta.
   */
  predicate FailSoft(r: ExtInt, t: ExtInt, alpha: ExtInt, beta: ExtInt) {
    && (Lt(alpha, r) && Lt(r, beta) ==> r == t)
    && (Le(r, alpha) ==> Le(t, r))
    && (Le(beta, r) ==> Le(r, t))
  }

  /** A max-node child that reaches beta: the cut-off value is a lower bound of the node's true value. */
  lemma MaxCutoff(v: ExtInt, s: ExtInt, t: ExtInt, rest: ExtInt, alpha: ExtInt, beta: ExtInt)
    requires Le(v, alpha) && Lt(alpha, beta) && FailSoft(s, t, alpha, beta)
    requires Le(beta, Max(v, s))
    ensures FailSoft(Max(v, s), Max(v, Max(t, rest)), alpha, beta)
  {
  }

  /** A max-node child below beta: the rest of the loop's answer, in the raised window, answers for the whole loop. */
  lemma MaxContinue(v: ExtInt, s: ExtInt, t: ExtInt, rest: ExtInt, r: ExtInt, alpha: ExtInt, beta: ExtInt)
    requires Le(v, alpha) && Lt(alpha, beta) && FailSoft(s, t, alpha, beta)
    requires !Le(beta, Max(v, s))
    requires FailSoft(r, Max(Max(v, s), rest), Max(alpha, Max(v, s)), beta)
    ensures FailSoft(r, Max(v, Max(t, rest)), alpha, beta)
  {
  }

  /** A min-node reply at or below alpha: the cut-off value is an upper bound of the node's true value. */
  lemma MinCutoff(v: ExtInt, s: ExtInt, t: ExtInt, rest: ExtInt, alpha: ExtInt, beta: ExtInt)
    requires Le(beta, v) && Lt(alpha, beta) && FailSoft(s, t, alpha, beta)
    requires Le(Min(v, s), alpha)
    ensures FailSoft(Min(v, s), Min(v, Min(t, rest)), alpha, beta)
  {
  }

  /** A min-node reply above alpha: the rest of the loop's answer, in the lowered window, answers for the whole loop. */
  lemma MinContinue(v: ExtInt, s: ExtInt, t: ExtInt, rest: ExtInt, r: ExtInt, alpha: ExtInt, beta: ExtInt)
    requires Le(beta, v) && Lt(alpha, beta) && FailSoft(s, t, alpha, beta)
    requires !Le(Min(v, s), alpha)
    requires FailSoft(r, Min(Min(v, s), rest), alpha, Min(beta, Min(v, s)))
    ensures FailSoft(r, Min(v, Min(t, rest)), alpha, beta)
  {
  }

  lemma {:induction false} MaxValueFailSoft(b: Board, d: int, alpha: ExtInt, beta: ExtInt, me: int, opp: int)
    requires WellFormed(b) && Sides(me, opp) && Lt(alpha, beta)
    ensures FailSoft(Fin(MaxValue(b, d, alpha, beta, me, opp)), Fin(Minimax(b, d, me, opp)), alpha, beta)
    decreases EmptyCount(b), 1
  {
    if !HasFour(b, me) && !HasFour(b, opp) && d != 0 {
      MaxLoopFailSoft(b, ValidCols(b), d, NegInf, alpha, beta, me, opp);
    }
  }

  lemma {:induction false} MinValueFailSoft(b: Board, d: int, alpha: ExtInt, beta: ExtInt, me: int, opp: int)
    requires WellFormed(b) && Sides(me, opp) && Lt(alpha, beta)
    ensures FailSoft(Fin(MinValue(b, d, alpha, beta, me, opp)), Fin(Minimin(b, d, me, opp)), alpha, beta)
    decreases EmptyCount(b), 1
  {
    if !HasFour(b, me) && !HasFour(b, opp) && d != 0 {
      MinLoopFailSoft(b, ValidCols(b), d, PosInf, alpha, beta, me, opp);
    }
  }

  lemma {:induction false} MaxLoopFailSoft(b: Board, cols: seq<int>, d: int, v: ExtInt, alpha: ExtInt, beta: ExtInt, me: int, opp: int)
    requires WellFormed(b) && Sides(me, opp) && AllPlayable(b, cols)
    requires Le(v, alpha) && Lt(alpha, beta) && v != PosInf
    ensures FailSoft(MaxLoop(b, cols, d, v, alpha, beta, me, opp), Max(v, BestOf(b, cols, d, me, opp)), alpha, beta)
    decreases EmptyCount(b), 0, |cols|
  {
    if cols != [] {
      var nb := Drop(b, cols[0], me);
      var s := MinValue(nb, d - 1, alpha, beta, me, opp);
      MinValueFailSoft(nb, d - 1, alpha, beta, me, opp);
      var t := Minimin(nb, d - 1, me, opp);
      var rest := BestOf(b, cols[1..], d, me, opp);
      var v' := Max(v, Fin(s));
      if Le(beta, v') {
        MaxCutoff(v, Fin(s), Fin(t), rest, alpha, beta);
      } else {
        MaxLoopFailSoft(b, cols[1..], d, v', Max(alpha, v'), beta, me, opp);
        MaxContinue(v, Fin(s), Fin(t), rest, MaxLoop(b, cols[1..], d, v', Max(alpha, v'), beta, me, opp), alpha, beta);
      }
    }
  }

  lemma {:induction false} MinLoopFailSoft(b: Board, cols: seq<int>, d: int, v: ExtInt, alpha: ExtInt, beta: ExtInt, me: int, opp: int)
    requires WellFormed(b) && Sides(me, opp) && AllPlayable(b, cols)
    requires Le(beta, v) && Lt(alpha, beta) && v != NegInf
    ensures FailSoft(MinLoop(b, cols, d, v, alpha, beta, me, opp), Min(v, WorstOf(b, cols, d, me, opp)), alpha, beta)
    decreases EmptyCount(b), 0, |cols|
  {
    if cols != [] {
      var nb := Drop(b, cols[0], opp);
      var s := MaxValue(nb, d - 1, alpha, beta, me, opp);
      MaxValueFailSoft(nb, d - 1, alpha, beta, me, opp);
      var t := Minimax(nb, d - 1, me, opp);
      var rest := WorstOf(b, cols[1..], d, me, opp);
      var v' := Min(v, Fin(s));
      if Le(v', alpha) {
        MinCutoff(v, Fin(s), Fin(t), rest, alpha, beta);
      } else {
        MinLoopFailSoft(b, cols[1..], d, v', alpha, Min(beta, v'), me, opp);
        MinContinue(v, Fin(s), Fin(t), rest, MinLoop(b, cols[1..], d, v', alpha, Min(beta, v'), me, opp), alpha, beta);
      }
    }
  }
}
