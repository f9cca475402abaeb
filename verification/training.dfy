/**
 * The training environment's own copy of the board rules (make_move,
 * check_winner) and its two-agent game loop (play_game), together with the
 * win/loss/draw label an episode gets.
 */
module Training {

  import opened Grid
  import opened Policy

  // ---------------------------------------------------------------------------
  // make_move
  // ---------------------------------------------------------------------------

  /** Scanning col upwards from row: p goes into the first EMPTY cell met; a full column is left alone. */
  function MakeMoveFrom(b: Board, col: int, p: int, row: int): (nb: Board)
    requires WellFormed(b) && 0 <= col < COLS && -1 <= row < ROWS
    decreases row + 1
  {
    if row < 0 then b
    else if b[row][col] == EMPTY then b[row := b[row][col := p]]
    else MakeMoveFrom(b, col, p, row - 1)
  }

  lemma {:induction false} MakeMoveFromLowest(b: Board, col: int, p: int, row: int)
    requires WellFormed(b) && 0 <= col < COLS && -1 <= row < ROWS
    ensures var r := LowestEmptyFrom(b, col, row);
            MakeMoveFrom(b, col, p, row) == if r < 0 then b else b[r := b[r][col := p]]
    decreases row + 1
  {
    if row >= 0 && b[row][col] != EMPTY {
      MakeMoveFromLowest(b, col, p, row - 1);
    }
  }

  /** A copy of b with p in the lowest EMPTY cell of col, scanning from the bottom row. */
  function MakeMove(b: Board, col: int, p: int): (nb: Board)
    requires WellFormed(b) && 0 <= col < COLS
    ensures WellFormed(nb)
  {
    MakeMoveFromLowest(b, col, p, ROWS - 1);
    MakeMoveFrom(b, col, p, ROWS - 1)
  }

  /**
   * The training loop's drop and the search agent's drop agree on every
   * board, column and piece, so make_move inherits the gravity contract:
   * p lands in the lowest EMPTY cell, nothing else changes, a full column
   * leaves the board as it was.
   */
  lemma MakeMoveIsDrop(b: Board, col: int, p: int)
    requires WellFormed(b) && 0 <= col < COLS
    ensures MakeMove(b, col, p) == Drop(b, col, p)
    ensures WellFormed(MakeMove(b, col, p))
    ensures LowestEmpty(b, col) < 0 ==> MakeMove(b, col, p) == b
    ensures LowestEmpty(b, col) >= 0 ==> Placed(b, MakeMove(b, col, p), LowestEmpty(b, col), col, p)
  {
    MakeMoveFromLowest(b, col, p, ROWS - 1);
  }

  // ---------------------------------------------------------------------------
  // check_winner
  // ---------------------------------------------------------------------------

  /** Up-right diagonals starting in rows 3..5, columns 0..3, in the winner check's order. */
  function ULines(): seq<Line> { seq(12, k => Line(3 + k / 4, k % 4, -1, 1)) }

  /**
   * The 69 lines the winner check scans, in its order: rows, columns, down-right
   * diagonals, up-right diagonals.
   */
  function WinnerLines(): seq<Line> {
    HLines() + VLines() + DLines() + ULines()
  }

  lemma WinnerLinesFit()
    ensures |WinnerLines()| == 69
    ensures forall i :: 0 <= i < |WinnerLines()| ==> Fits(WinnerLines()[i]) && IsDir(WinnerLines()[i])
  {
  }

  /** Every fitting line in one of the four directions the winner check walks is one of its lines. */
  lemma InWinnerLines(l: Line)
    requires Fits(l)
    requires (l.dr, l.dc) in {(0, 1), (1, 0), (1, 1), (-1, 1)}
    ensures l in WinnerLines()
  {
    if (l.dr, l.dc) == (0, 1) {
      DivMod(l.r, l.c, 4);
      assert WinnerLines()[l.r * 4 + l.c] == l;
    } else if (l.dr, l.dc) == (1, 0) {
      DivMod(l.c, l.r, 3);
      assert WinnerLines()[24 + l.c * 3 + l.r] == l;
    } else if (l.dr, l.dc) == (1, 1) {
      DivMod(l.r, l.c, 4);
      assert WinnerLines()[45 + l.r * 4 + l.c] == l;
    } else {
      DivMod(l.r - 3, l.c, 4);
      assert WinnerLines()[57 + (l.r - 3) * 4 + l.c] == l;
    }
  }

  /** The first cell of l is a piece and the other three cells repeat it. */
  predicate StartsRun(b: Board, l: Line)
    requires WellFormed(b) && Fits(l)
  {
    b[l.r][l.c] != EMPTY && Filled(b, l, b[l.r][l.c])
  }

  /** The winner check's scan over ls: the piece of the first line that starts a run, or 0. */
  function ScanLines(b: Board, ls: seq<Line>): (w: int)
    requires WellFormed(b) && forall i :: 0 <= i < |ls| ==> Fits(ls[i])
    ensures w != EMPTY ==> exists i :: 0 <= i < |ls| && Filled(b, ls[i], w)
    ensures w == EMPTY <==> forall i :: 0 <= i < |ls| ==> !StartsRun(b, ls[i])
  {
    if ls == [] then EMPTY
    else if StartsRun(b, ls[0]) then b[ls[0].r][ls[0].c]
    else
      var w := ScanLines(b, ls[1..]);
      assert forall i :: 1 <= i < |ls| ==> ls[i] == ls[1..][i - 1];
      w
  }

  /** The lines the winner check walks cover every run, up to walking it from the other end. */
  lemma RunStartsWinnerLine(b: Board, l: Line, p: int)
    requires WellFormed(b) && IsDir(l) && Filled(b, l, p) && p != EMPTY
    ensures exists i :: 0 <= i < |WinnerLines()| && StartsRun(b, WinnerLines()[i]) && Fits(WinnerLines()[i])
  {
    var l' := if (l.dr, l.dc) in {(0, 1), (1, 0), (1, 1), (-1, 1)} then l else Reverse(l);
    ReverseFilled(b, l, p);
    assert Filled(b, l', p);
    InWinnerLines(l');
    WinnerLinesFit();
    var i :| 0 <= i < |WinnerLines()| && WinnerLines()[i] == l';
    assert StartsRun(b, WinnerLines()[i]);
  }

  /**
   * The training loop's winner check: the piece of the first run found in
   * its scan order, or 0 when there is none.
   */
  function CheckWinner(b: Board): (w: int)
    requires WellFormed(b)
    ensures w != EMPTY ==> HasRun(b, w)
    ensures w == EMPTY <==> !AnyRun(b)
  {
    WinnerLinesFit();
    AnyRunScanned(b);
    var w := ScanLines(b, WinnerLines());
    if w != EMPTY then
      var i :| 0 <= i < |WinnerLines()| && Filled(b, WinnerLines()[i], w);
      assert IsDir(WinnerLines()[i]);
      assert HasRun(b, w);
      w
    else w
  }

  /** A run of some piece shows up in the winner check's scan. */
  lemma AnyRunScanned(b: Board)
    requires WellFormed(b)
    ensures AnyRun(b) ==> exists i :: 0 <= i < |WinnerLines()| && StartsRun(b, WinnerLines()[i]) && Fits(WinnerLines()[i])
  {
    if AnyRun(b) {
      var p :| p != EMPTY && HasRun(b, p);
      var l :| IsDir(l) && Filled(b, l, p);
      RunStartsWinnerLine(b, l, p);
    }
  }

  /**
   * Both win checks describe the same condition: a nonzero answer of the
   * training winner check is a player the agent's check sees four for, and a zero
   * answer means the agent's check sees four for neither player.
   */
  lemma CheckWinnerAgreesWithHasFour(b: Board)
    requires WellFormed(b)
    ensures CheckWinner(b) != EMPTY ==> HasFour(b, CheckWinner(b))
    ensures CheckWinner(b) == EMPTY ==> !HasFour(b, P1) && !HasFour(b, P2)
  {
    HasFourIffRun(b, CheckWinner(b));
    HasFourIffRun(b, P1);
    HasFourIffRun(b, P2);
  }

  // ---------------------------------------------------------------------------
  // The loop's column list
  // ---------------------------------------------------------------------------

  /** The columns from c on whose top cell is EMPTY, scanning left to right. */
  function OpenColsFrom(b: Board, c: int): seq<int>
    requires WellFormed(b) && 0 <= c <= COLS
    decreases COLS - c
  {
    if c == COLS then []
    else if b[0][c] == EMPTY then [c] + OpenColsFrom(b, c + 1)
    else OpenColsFrom(b, c + 1)
  }

  /** The loop's own list of columns with a free top cell. */
  function OpenCols(b: Board): (cols: seq<int>)
    requires WellFormed(b)
    ensures forall i :: 0 <= i < |cols| ==> Playable(b, cols[i])
  {
    OpenColsFromAgree(b, 0);
    assert forall i :: 0 <= i < |ValidCols(b)| ==> ValidCols(b)[i] in ValidCols(b);
    OpenColsFrom(b, 0)
  }

  lemma {:induction false} OpenColsFromAgree(b: Board, c: int)
    requires WellFormed(b) && 0 <= c <= COLS
    ensures OpenColsFrom(b, c) == ValidColsFrom(b, c)
    decreases COLS - c
  {
    if c < COLS {
      OpenColsFromAgree(b, c + 1);
    }
  }

  /**
   * The loop's column list and the agent's are the same list, so it holds
   * exactly the playable columns, in ascending order.
   */
  lemma OpenColsAgree(b: Board)
    requires WellFormed(b)
    ensures OpenCols(b) == ValidCols(b)
    ensures forall x :: x in OpenCols(b) <==> Playable(b, x)
    ensures OpenCols(b) == [] <==> forall x :: !Playable(b, x)
  {
    OpenColsFromAgree(b, 0);
    if OpenCols(b) != [] {
      assert Playable(b, OpenCols(b)[0]);
    }
  }

  // ---------------------------------------------------------------------------
  // play_game
  // ---------------------------------------------------------------------------

  /** What an agent's act call gives back: a column, or an exception. */
  datatype Reply = Move(col: int) | Raised

  /**
   * An agent as the game loop sees it: its reply on the given move number
   * (counted from 1) and board. Whatever state or randomness the agent uses
   * is folded into this function.
   */
  type Player = (nat, Board) -> Reply

  /** One turn of a game: the board before the move, the column applied and the piece placed. */
  datatype Turn = Turn(state: Board, action: int, player: int)

  /** A bare board is where every game starts: nobody has four, every column is open, all 42 cells are free. */
  lemma BareStart(b: Board)
    requires WellFormed(b) && Bare(b)
    ensures !AnyRun(b)
    ensures OpenCols(b) != []
    ensures EmptyCount(b) == ROWS * COLS
  {
    OpenColsAgree(b);
    assert Playable(b, 0);
    CountBoardAll(b, EMPTY);
  }

  /**
   * The column actually applied: the agent's column when it is a playable
   * one, otherwise the valid column the random draw pick selects.
   */
  function Applied(b: Board, reply: Reply, pick: nat): (c: int)
    requires WellFormed(b) && OpenCols(b) != []
    ensures Playable(b, c)
    ensures reply.Move? && Playable(b, reply.col) ==> c == reply.col
    ensures !(reply.Move? && Playable(b, reply.col)) ==> c in OpenCols(b)
  {
    var valid := OpenCols(b);
    if reply.Move? && Playable(b, reply.col) then reply.col
    else valid[pick % |valid|]
  }

  /** Whether the agent that plays t keeps a history (record1 for piece 1, record2 for piece -1). */
  predicate Keeps(t: Turn, record1: bool, record2: bool) {
    if t.player == 1 then record1 else record2
  }

  /** The turns whose agent keeps a history, in order. */
  function Recorded(turns: seq<Turn>, record1: bool, record2: bool): (h: seq<Turn>)
    ensures |h| <= |turns|
  {
    if turns == [] then []
    else
      var n := |turns| - 1;
      Recorded(turns[..n], record1, record2) + (if Keeps(turns[n], record1, record2) then [turns[n]] else [])
  }

  /** The history holds exactly the turns whose agent keeps one. */
  lemma {:induction false} RecordedMembers(turns: seq<Turn>, record1: bool, record2: bool)
    ensures forall t :: t in Recorded(turns, record1, record2) <==> t in turns && Keeps(t, record1, record2)
  {
    if turns != [] {
      var n := |turns| - 1;
      RecordedMembers(turns[..n], record1, record2);
      assert forall t :: t in turns <==> t in turns[..n] || t == turns[n];
    }
  }

  /**
   * The rules one turn obeys: the board before it has no four in a row and
   * a playable column, the piece is a player's, and the column applied is
   * the reply of that player's agent on this move number, replaced by the
   * random pick when it is not playable.
   */
  ghost predicate TurnRules(t: Turn, moveNo: nat, agent1: Player, agent2: Player, pick: nat -> nat) {
    && WellFormed(t.state)
    && OpenCols(t.state) != []
    && !AnyRun(t.state)
    && IsPlayer(t.player)
    && Playable(t.state, t.action)
    && var agent := if t.player == 1 then agent1 else agent2;
       t.action == Applied(t.state, agent(moveNo, t.state), pick(moveNo))
  }

  /** Every turn obeys the rules, turn i (from 0) being move number i + 1. */
  ghost predicate AllTurnRules(turns: seq<Turn>, agent1: Player, agent2: Player, pick: nat -> nat) {
    turns != [] ==>
      && TurnRules(turns[|turns| - 1], |turns|, agent1, agent2, pick)
      && AllTurnRules(turns[..|turns| - 1], agent1, agent2, pick)
  }

  /** next continues from the board prev left behind, with the other piece. */
  predicate Follows(prev: Turn, next: Turn) {
    && WellFormed(prev.state)
    && 0 <= prev.action < COLS
    && next.state == MakeMove(prev.state, prev.action, prev.player)
    && next.player == -prev.player
  }

  /** The most recent turn. */
  function Last(turns: seq<Turn>): Turn
    requires turns != []
  {
    turns[|turns| - 1]
  }

  /** Each turn continues from the previous one. */
  predicate Linked(turns: seq<Turn>) {
    |turns| >= 2 ==>
      && Follows(turns[|turns| - 2], turns[|turns| - 1])
      && Linked(turns[..|turns| - 1])
  }

  /** Turn i (from 0) of a well-ruled trace obeys the rules as move number i + 1. */
  lemma {:induction false} TurnRulesAt(turns: seq<Turn>, i: int, agent1: Player, agent2: Player, pick: nat -> nat)
    requires AllTurnRules(turns, agent1, agent2, pick) && 0 <= i < |turns|
    ensures TurnRules(turns[i], i + 1, agent1, agent2, pick)
  {
    var n := |turns| - 1;
    if i < n {
      TurnRulesAt(turns[..n], i, agent1, agent2, pick);
      assert turns[..n][i] == turns[i];
    }
  }

  /** In a linked trace every turn after the first continues from the one before it. */
  lemma {:induction false} LinkedAt(turns: seq<Turn>, i: int)
    requires Linked(turns) && 0 < i < |turns|
    ensures Follows(turns[i - 1], turns[i])
  {
    var n := |turns| - 1;
    if i < n {
      LinkedAt(turns[..n], i);
    }
  }

  /** A linked trace that piece 1 opens alternates: piece 1 on even turns, piece -1 on odd ones. */
  lemma {:induction false} Alternates(turns: seq<Turn>, i: int)
    requires Linked(turns) && turns != [] && turns[0].player == 1 && 0 <= i < |turns|
    ensures turns[i].player == if i % 2 == 0 then 1 else -1
  {
    if i > 0 {
      Alternates(turns, i - 1);
      LinkedAt(turns, i);
    }
  }

  /**
   * A game so far: at least one turn, the first by piece 1 on a bare board;
   * every turn obeys the rules and continues from the one before; history is
   * the recorded part of the turns; the last turn's column is on the grid.
   */
  ghost predicate Trace(turns: seq<Turn>, history: seq<Turn>,
                        agent1: Player, agent2: Player, pick: nat -> nat, record1: bool, record2: bool) {
    && turns != []
    && WellFormed(turns[0].state) && Bare(turns[0].state) && turns[0].player == 1
    && AllTurnRules(turns, agent1, agent2, pick) && Linked(turns)
    && history == Recorded(turns, record1, record2)
    && WellFormed(Last(turns).state) && 0 <= Last(turns).action < COLS
  }

  /**
   * Appending a turn that obeys the rules and either opens the game (piece 1
   * on a bare board) or continues from the last turn extends the game, and
   * extends the history exactly when the turn's agent keeps one.
   */
  lemma ExtendTrace(turns: seq<Turn>, history: seq<Turn>, t: Turn,
                    agent1: Player, agent2: Player, pick: nat -> nat, record1: bool, record2: bool)
    requires TurnRules(t, |turns| + 1, agent1, agent2, pick)
    requires turns == [] ==> history == [] && Bare(t.state) && t.player == 1
    requires turns != [] ==> Trace(turns, history, agent1, agent2, pick, record1, record2) && Follows(Last(turns), t)
    ensures Trace(turns + [t], history + (if Keeps(t, record1, record2) then [t] else []),
                  agent1, agent2, pick, record1, record2)
    ensures Last(turns + [t]) == t
  {
    assert (turns + [t])[..|turns|] == turns;
  }

  /**
   * One turn from board b with player to move on move number moveNo: ask
   * that player's agent and apply its column, or the random pick instead.
   */
  function Step(b: Board, player: int, moveNo: nat, agent1: Player, agent2: Player, pick: nat -> nat): (t: Turn)
    requires WellFormed(b) && IsPlayer(player) && OpenCols(b) != [] && !AnyRun(b)
    ensures t.state == b && t.player == player
    ensures TurnRules(t, moveNo, agent1, agent2, pick)
  {
    var agent := if player == 1 then agent1 else agent2;
    Turn(b, Applied(b, agent(moveNo, b), pick(moveNo)), player)
  }

  /** The board after a turn: its piece dropped into its column. */
  function After(t: Turn): (nb: Board)
    requires WellFormed(t.state) && 0 <= t.action < COLS
    ensures WellFormed(nb)
    ensures Playable(t.state, t.action) && IsPlayer(t.player) ==> EmptyCount(nb) == EmptyCount(t.state) - 1
  {
    MakeMoveIsDrop(t.state, t.action, t.player);
    MakeMove(t.state, t.action, t.player)
  }

  /**
   * The winner check's verdict right after a turn played on a board without four
   * in a row: a nonzero winner is the piece just placed and has four; zero
   * means nobody has four.
   */
  lemma WinnerIsMover(t: Turn)
    requires WellFormed(t.state) && 0 <= t.action < COLS && !AnyRun(t.state)
    ensures var w := CheckWinner(After(t));
            && (w != EMPTY ==> w == t.player && HasRun(After(t), w))
            && (w == EMPTY ==> !AnyRun(After(t)))
  {
    var nb := After(t);
    var w := CheckWinner(nb);
    if w != EMPTY {
      MakeMoveIsDrop(t.state, t.action, t.player);
      NewRunIsMovers(t.state, nb, LowestEmpty(t.state, t.action), t.action, t.player, w);
    }
  }

  /**
   * The state at the top of the game loop: the board has no four in a row
   * and an open column, one turn was played per counted move, each played
   * move used up one of the 42 free cells, and either nothing was played yet
   * (a bare board, piece 1 to move) or the turns so far form a game whose last
   * turn left this board and was played by the other piece.
   */
  ghost predicate Playing(board: Board, player: int, moveCount: nat, history: seq<Turn>, turns: seq<Turn>,
                          agent1: Player, agent2: Player, pick: nat -> nat, record1: bool, record2: bool) {
    && WellFormed(board) && IsPlayer(player)
    && !AnyRun(board) && OpenCols(board) != []
    && moveCount == |turns| && moveCount + EmptyCount(board) == ROWS * COLS
    && (turns == [] ==> Bare(board) && player == 1 && history == [])
    && (turns != [] ==>
          && Trace(turns, history, agent1, agent2, pick, record1, record2)
          && Follows(Last(turns), Turn(board, 0, player)))
  }

  /**
   * What holds once a round has been played: at most 42 turns forming a
   * game, the board the last turn left, a nonzero winner that is the last
   * mover with four in a row, or a zero winner and nobody with four.
   */
  ghost predicate Played(winner: int, moveCount: nat, history: seq<Turn>, board: Board, turns: seq<Turn>,
                         agent1: Player, agent2: Player, pick: nat -> nat, record1: bool, record2: bool) {
    && 1 <= moveCount == |turns| <= ROWS * COLS
    && Trace(turns, history, agent1, agent2, pick, record1, record2)
    && board == After(Last(turns))
    && (winner != EMPTY ==> winner == Last(turns).player && HasRun(board, winner))
    && (winner == EMPTY ==> !AnyRun(board))
  }

  /** After one more turn the game so far meets the end-of-round facts. */
  lemma RoundPlayed(board: Board, player: int, moveCount: nat, history: seq<Turn>, turns: seq<Turn>, t: Turn,
                    agent1: Player, agent2: Player, pick: nat -> nat, record1: bool, record2: bool)
    requires Playing(board, player, moveCount, history, turns, agent1, agent2, pick, record1, record2)
    requires t == Step(board, player, moveCount + 1, agent1, agent2, pick)
    ensures Played(CheckWinner(After(t)), moveCount + 1, history + (if Keeps(t, record1, record2) then [t] else []),
                   After(t), turns + [t], agent1, agent2, pick, record1, record2)
  {
    ExtendTrace(turns, history, t, agent1, agent2, pick, record1, record2);
    WinnerIsMover(t);
    EmptyCountBound(After(t));
  }

  /** When the round ends without a winner and with an open column, the loop state holds for the other piece. */
  lemma RoundPlaying(board: Board, player: int, moveCount: nat, history: seq<Turn>, turns: seq<Turn>, t: Turn,
                     agent1: Player, agent2: Player, pick: nat -> nat, record1: bool, record2: bool)
    requires Playing(board, player, moveCount, history, turns, agent1, agent2, pick, record1, record2)
    requires t == Step(board, player, moveCount + 1, agent1, agent2, pick)
    requires CheckWinner(After(t)) == EMPTY && OpenCols(After(t)) != []
    ensures Playing(After(t), -player, moveCount + 1, history + (if Keeps(t, record1, record2) then [t] else []),
                    turns + [t], agent1, agent2, pick, record1, record2)
  {
    ExtendTrace(turns, history, t, agent1, agent2, pick, record1, record2);
  }

  /**
   * One pass of the game loop: count the move, ask the agent for player's
   * column, record the turn when the agent keeps history, drop the piece and
   * ask the winner check for a winner.
   */
  method Round(board: Board, player: int, moveCount: nat, history: seq<Turn>, turns: seq<Turn>,
               agent1: Player, agent2: Player, pick: nat -> nat, record1: bool, record2: bool)
    returns (winner: int, moveCount': nat, history': seq<Turn>, board': Board, turns': seq<Turn>)
    requires Playing(board, player, moveCount, history, turns, agent1, agent2, pick, record1, record2)
    ensures Played(winner, moveCount', history', board', turns', agent1, agent2, pick, record1, record2)
    ensures WellFormed(board') && EmptyCount(board') < EmptyCount(board)
    ensures winner == EMPTY && OpenCols(board') != [] ==>
              Playing(board', -player, moveCount', history', turns', agent1, agent2, pick, record1, record2)
  {
    moveCount' := moveCount + 1;
    var t := Step(board, player, moveCount', agent1, agent2, pick);
    history' := history + (if Keeps(t, record1, record2) then [t] else []);
    turns' := turns + [t];
    board' := After(t);
    winner := CheckWinner(board');
    RoundPlayed(board, player, moveCount, history, turns, t, agent1, agent2, pick, record1, record2);
    if winner == EMPTY && OpenCols(board') != [] {
      RoundPlaying(board, player, moveCount, history, turns, t, agent1, agent2, pick, record1, record2);
    }
  }

  /**
   * The training game between agent1 (piece 1, moving first) and agent2
   * (piece -1) on an empty board, played round by round until a winner or
   * a full top row. Besides the winner (0 for a draw), the move count, the
   * history and the final board, it returns every turn played.
   */
  method PlayGame(agent1: Player, agent2: Player, pick: nat -> nat, record1: bool, record2: bool)
    returns (winner: int, moveCount: nat, history: seq<Turn>, board: Board, turns: seq<Turn>)
    ensures 1 <= moveCount == |turns| <= ROWS * COLS
    ensures WellFormed(turns[0].state) && Bare(turns[0].state) && turns[0].player == 1
    ensures AllTurnRules(turns, agent1, agent2, pick) && Linked(turns)
    ensures history == Recorded(turns, record1, record2)
    ensures WellFormed(Last(turns).state) && 0 <= Last(turns).action < COLS && board == After(Last(turns))
    ensures winner != EMPTY ==> winner == Last(turns).player && HasRun(board, winner)
    ensures winner == EMPTY ==> !AnyRun(board) && OpenCols(board) == []
  {
    board := EmptyBoard();
    assert Bare(board);
    BareStart(board);
    var player := 1;
    moveCount := 0;
    history := [];
    turns := [];
    while true
      invariant Playing(board, player, moveCount, history, turns, agent1, agent2, pick, record1, record2)
      decreases EmptyCount(board)
    {
      winner, moveCount, history, board, turns :=
        Round(board, player, moveCount, history, turns, agent1, agent2, pick, record1, record2);
      if winner != EMPTY || OpenCols(board) == [] {
        return;
      }
      player := -player;
    }
  }

  // ---------------------------------------------------------------------------
  // Episode result
  // ---------------------------------------------------------------------------

  /** The label an episode gets from the learning agent's side. */
  datatype Outcome = Win | Loss | Draw

  /** The learning agent played piece me: a win when the winner is me, a loss when it is -me, a draw otherwise. */
  function Classify(winner: int, me: int): (o: Outcome)
    requires IsPlayer(me)
    ensures o == Win <==> winner == me
    ensures o == Loss <==> winner == -me
    ensures o == Draw <==> winner != me && winner != -me
  {
    if winner == me then Win
    else if winner == -me then Loss
    else Draw
  }

  /**
   * For a finished game the label tells how it ended for me: a win means me
   * made the last move and has four in a row; a loss means the opponent did;
   * a draw means nobody has four and the top row is full.
   */
  lemma ClassifyGame(winner: int, board: Board, last: Turn, me: int)
    requires WellFormed(board) && IsPlayer(me) && IsPlayer(last.player)
    requires winner != EMPTY ==> winner == last.player && HasRun(board, winner)
    requires winner == EMPTY ==> !AnyRun(board) && OpenCols(board) == []
    ensures Classify(winner, me) == Win <==> last.player == me && winner != EMPTY
    ensures Classify(winner, me) == Win ==> HasRun(board, me)
    ensures Classify(winner, me) == Loss <==> last.player == -me && winner != EMPTY
    ensures Classify(winner, me) == Loss ==> HasRun(board, -me)
    ensures Classify(winner, me) == Draw <==> winner == EMPTY
    ensures Classify(winner, me) == Draw ==> !AnyRun(board) && forall c :: !Playable(board, c)
  {
    OpenColsAgree(board);
  }
}
