/**
 * The tabular Q-learning agent (class QLearningAgent): a map from
 * (state key, column) pairs to values, read with a default of 0, the
 * one-entry temporal-difference update, the greedy choice with numpy's
 * first-maximum tie-break, the epsilon-greedy switch and the epsilon decay.
 * Values are reals, an exact idealisation of the Python floats.
 */
module QLearning {

  import opened Grid
  import opened Options

  /** A board flattened row by row into 42 cell values. */
  type Key = seq<int>

  type QTable = map<(Key, int), real>

  datatype Agent = Agent(
    table: QTable,
    alpha: real,
    gamma: real,
    epsilon: real,
    epsilonDecay: real,
    epsilonMin: real,
    trainMode: bool)

  /**
   * A fresh agent with an empty table. An agent built for evaluation
   * (trainMode false) never explores: its epsilon is 0 whatever was asked for.
   */
  function NewAgent(alpha: real, gamma: real, epsilon: real, epsilonDecay: real, epsilonMin: real, trainMode: bool): (a: Agent)
    ensures a.table == map[]
    ensures trainMode ==> a.epsilon == epsilon
    ensures !trainMode ==> a.epsilon == 0.0
    ensures a.alpha == alpha && a.gamma == gamma && a.epsilonDecay == epsilonDecay
    ensures a.epsilonMin == epsilonMin && a.trainMode == trainMode
  {
    Agent(map[], alpha, gamma, if trainMode then epsilon else 0.0, epsilonDecay, epsilonMin, trainMode)
  }

  /** The default hyper-parameters: alpha 0.1, gamma 0.95, epsilon 1.0, decay 0.995, floor 0.1. */
  function DefaultAgent(trainMode: bool): Agent {
    NewAgent(0.1, 0.95, 1.0, 0.995, 0.1, trainMode)
  }

  // ---------------------------------------------------------------------------
  // State keys
  // ---------------------------------------------------------------------------

  lemma FlatIndex(r: int, c: int)
    requires InBounds(r, c)
    ensures 0 <= r * COLS + c < ROWS * COLS
    ensures (r * COLS + c) / COLS == r && (r * COLS + c) % COLS == c
  {
  }

  /** The board read row by row: cell (r, c) sits at position r * 7 + c of the key. */
  function StateKey(b: Board): (k: Key)
    requires WellFormed(b)
    ensures |k| == ROWS * COLS
    ensures forall r, c :: InBounds(r, c) ==> k[r * COLS + c] == b[r][c]
  {
    var k := seq(ROWS * COLS, i requires 0 <= i < ROWS * COLS => b[i / COLS][i % COLS]);
    assert forall r, c :: InBounds(r, c) ==> k[r * COLS + c] == b[r][c] by {
      forall r, c | InBounds(r, c) {
        FlatIndex(r, c);
      }
    }
    k
  }

  /** Cuts a 42-value key back into six rows of seven. */
  function Unflatten(k: Key): (b: Board)
    requires |k| == ROWS * COLS
    ensures WellFormed(b)
    ensures forall r, c :: InBounds(r, c) ==> b[r][c] == k[r * COLS + c]
  {
    seq(ROWS, r requires 0 <= r < ROWS => k[r * COLS .. r * COLS + COLS])
  }

  /** Unflattening the key gives back the board. */
  lemma KeyRoundTrip(b: Board)
    requires WellFormed(b)
    ensures Unflatten(StateKey(b)) == b
  {
    var b' := Unflatten(StateKey(b));
    forall r | 0 <= r < ROWS
      ensures b'[r] == b[r]
    {
      assert forall c :: 0 <= c < COLS ==> b'[r][c] == b[r][c];
    }
  }

  /** Every 42-value key is the key of the board it unflattens to. */
  lemma UnflattenRoundTrip(k: Key)
    requires |k| == ROWS * COLS
    ensures StateKey(Unflatten(k)) == k
  {
    var k' := StateKey(Unflatten(k));
    forall i | 0 <= i < ROWS * COLS
      ensures k'[i] == k[i]
    {
      var r, c := i / COLS, i % COLS;
      assert i == r * COLS + c;
      assert k'[r * COLS + c] == Unflatten(k)[r][c];
    }
  }

  /** Two boards share a key exactly when they are the same board. */
  lemma StateKeyInjective(b1: Board, b2: Board)
    requires WellFormed(b1) && WellFormed(b2)
    ensures StateKey(b1) == StateKey(b2) <==> b1 == b2
  {
    KeyRoundTrip(b1);
    KeyRoundTrip(b2);
  }

  // ---------------------------------------------------------------------------
  // Reading the table
  // ---------------------------------------------------------------------------

  /** The stored value of (key, a), or 0 when the pair was never written. */
  function QValue(t: QTable, key: Key, a: int): real {
    if (key, a) in t then t[(key, a)] else 0.0
  }

  /** The largest value over the given columns. */
  function MaxValue(t: QTable, key: Key, actions: seq<int>): (m: real)
    requires actions != []
    ensures forall i :: 0 <= i < |actions| ==> QValue(t, key, actions[i]) <= m
    ensures exists i :: 0 <= i < |actions| && QValue(t, key, actions[i]) == m
    decreases |actions|
  {
    if |actions| == 1 then QValue(t, key, actions[0])
    else
      var rest := MaxValue(t, key, actions[1..]);
      var v := QValue(t, key, actions[0]);
      assert forall i :: 1 <= i < |actions| ==> actions[i] == actions[1..][i - 1];
      if v >= rest then v else rest
  }

  /** The bootstrap term: the best value over the next position's columns, 0 when there are none. */
  function NextMax(t: QTable, key: Key, actions: seq<int>): (m: real)
    ensures actions == [] ==> m == 0.0
    ensures forall a :: a in actions ==> QValue(t, key, a) <= m
    ensures actions != [] ==> exists a :: a in actions && QValue(t, key, a) == m
  {
    if actions == [] then 0.0 else MaxValue(t, key, actions)
  }

  // ---------------------------------------------------------------------------
  // Greedy choice
  // ---------------------------------------------------------------------------

  /** The values of the given columns, in list order. */
  function Values(t: QTable, key: Key, actions: seq<int>): (vs: seq<real>)
    ensures |vs| == |actions|
    ensures forall i :: 0 <= i < |actions| ==> vs[i] == QValue(t, key, actions[i])
  {
    seq(|actions|, i requires 0 <= i < |actions| => QValue(t, key, actions[i]))
  }

  /** i is the first position holding the largest entry of vs. */
  predicate FirstMax(vs: seq<real>, i: int) {
    && 0 <= i < |vs|
    && (forall j :: 0 <= j < |vs| ==> vs[j] <= vs[i])
    && (forall j :: 0 <= j < i ==> vs[j] < vs[i])
  }

  /** At most one position can be the first maximum. */
  lemma FirstMaxUnique(vs: seq<real>, i: int, j: int)
    requires FirstMax(vs, i) && FirstMax(vs, j)
    ensures i == j
  {
    assert vs[i] == vs[j];
  }

  /**
   * The left-to-right scan numpy's argmax performs: best is the first maximum
   * of vs[..i]; a later entry replaces it only when strictly larger.
   */
  function ArgMaxFrom(vs: seq<real>, best: nat, i: nat): (k: nat)
    requires best < i <= |vs|
    requires FirstMax(vs[..i], best)
    ensures FirstMax(vs, k)
    decreases |vs| - i
  {
    if i == |vs| then
      assert vs[..i] == vs;
      best
    else if vs[i] > vs[best] then
      ArgMaxFrom(vs, i, i + 1)
    else
      ArgMaxFrom(vs, best, i + 1)
  }

  /** numpy's argmax: the first position of the largest entry. */
  function ArgMax(vs: seq<real>): (k: nat)
    requires vs != []
    ensures FirstMax(vs, k)
  {
    ArgMaxFrom(vs, 0, 1)
  }

  /** The scan finds exactly the first maximum: no other position qualifies. */
  lemma ArgMaxIsFirstMax(vs: seq<real>, i: int)
    requires vs != []
    ensures ArgMax(vs) == i <==> FirstMax(vs, i)
  {
    if FirstMax(vs, i) {
      FirstMaxUnique(vs, i, ArgMax(vs));
    }
  }

  /**
   * The greedy branch: the first listed column with the largest value; no
   * column at all when the list is empty (argmax of an empty list raises).
   */
  function Greedy(t: QTable, key: Key, actions: seq<int>): (a: Option<int>)
    ensures a.None? <==> actions == []
    ensures a.Some? ==> exists i :: FirstMax(Values(t, key, actions), i) && actions[i] == a.value
  {
    if actions == [] then None
    else
      var i := ArgMax(Values(t, key, actions));
      Some(actions[i])
  }

  /** The greedy column is listed and no listed column is worth more. */
  lemma GreedyIsBest(t: QTable, key: Key, actions: seq<int>)
    requires actions != []
    ensures Greedy(t, key, actions).Some?
    ensures Greedy(t, key, actions).value in actions
    ensures QValue(t, key, Greedy(t, key, actions).value) == NextMax(t, key, actions)
    ensures forall a :: a in actions ==> QValue(t, key, a) <= QValue(t, key, Greedy(t, key, actions).value)
  {
    var vs := Values(t, key, actions);
    var i := ArgMax(vs);
    forall a | a in actions
      ensures QValue(t, key, a) <= vs[i]
    {
      var j :| 0 <= j < |actions| && actions[j] == a;
      assert vs[j] <= vs[i];
    }
  }

  /** Ties go to the earliest column: every column listed before the choice is worth strictly less. */
  lemma GreedyFirstOfTies(t: QTable, key: Key, actions: seq<int>, j: int)
    requires actions != [] && 0 <= j < |actions|
    requires QValue(t, key, actions[j]) == NextMax(t, key, actions)
    ensures Greedy(t, key, actions) == Some(actions[ArgMax(Values(t, key, actions))])
    ensures ArgMax(Values(t, key, actions)) <= j
  {
    var vs := Values(t, key, actions);
    GreedyIsBest(t, key, actions);
    assert vs[j] == QValue(t, key, actions[j]);
  }

  // ---------------------------------------------------------------------------
  // Choosing a column
  // ---------------------------------------------------------------------------

  /**
   * select_action: with explore set and a draw below epsilon, the random
   * choice valid[pick % |valid|]; otherwise the greedy column. An empty list
   * of columns raises on either branch, modelled as None. draw stands for
   * np.random.rand() (in [0, 1)) and pick for random.choice.
   */
  function SelectAction(agent: Agent, key: Key, valid: seq<int>, explore: bool, draw: real, pick: nat): (a: Option<int>)
    ensures a.None? <==> valid == []
    ensures a.Some? ==> a.value in valid
    ensures !(explore && draw < agent.epsilon) ==> a == Greedy(agent.table, key, valid)
    ensures valid != [] && explore && draw < agent.epsilon ==> a == Some(valid[pick % |valid|])
  {
    if valid == [] then None
    else if explore && draw < agent.epsilon then Some(valid[pick % |valid|])
    else
      var g := Greedy(agent.table, key, valid);
      GreedyIsBest(agent.table, key, valid);
      g
  }

  /** choose_action: select_action with exploration on, keyed by the board. */
  function ChooseAction(agent: Agent, b: Board, valid: seq<int>, draw: real, pick: nat): (a: Option<int>)
    requires WellFormed(b)
    ensures a.None? <==> valid == []
    ensures a.Some? ==> a.value in valid
    ensures draw >= agent.epsilon ==> a == Greedy(agent.table, StateKey(b), valid)
  {
    SelectAction(agent, StateKey(b), valid, true, draw, pick)
  }

  /**
   * An agent built for evaluation always plays greedily: whatever the draw in
   * [0, 1) and the random pick, it plays a listed column of maximal value.
   */
  lemma EvaluationIsGreedy(alpha: real, gamma: real, epsilon: real, epsilonDecay: real, epsilonMin: real,
                           b: Board, valid: seq<int>, draw: real, pick: nat)
    requires WellFormed(b) && valid != [] && 0.0 <= draw < 1.0
    ensures var agent := NewAgent(alpha, gamma, epsilon, epsilonDecay, epsilonMin, false);
            var a := ChooseAction(agent, b, valid, draw, pick);
            a == Greedy(map[], StateKey(b), valid) && a.Some? && a.value in valid
  {
  }

  // ---------------------------------------------------------------------------
  // Learning
  // ---------------------------------------------------------------------------

  /** The temporal-difference step: prev moved a fraction alpha of the way to target. */
  function Blend(prev: real, alpha: real, target: real): real {
    prev + alpha * (target - prev)
  }

  /** After the step the gap to the target is the old gap scaled by 1 - alpha. */
  lemma BlendGap(prev: real, alpha: real, target: real)
    ensures Blend(prev, alpha, target) - target == (1.0 - alpha) * (prev - target)
  {
  }

  /**
   * update: writes the single entry (key of b, action) and keeps every other
   * entry; the new value moves the prev one (0 when absent) a fraction alpha of
   * the way to reward + gamma * (best value of the next position, or 0).
   */
  function Update(agent: Agent, b: Board, action: int, reward: real, nb: Board, nextValid: seq<int>): (agent': Agent)
    requires WellFormed(b) && WellFormed(nb)
    ensures agent'.table.Keys == agent.table.Keys + {(StateKey(b), action)}
    ensures forall k :: k in agent.table && k != (StateKey(b), action) ==> agent'.table[k] == agent.table[k]
    ensures agent'.table[(StateKey(b), action)]
         == Blend(QValue(agent.table, StateKey(b), action), agent.alpha,
                  reward + agent.gamma * NextMax(agent.table, StateKey(nb), nextValid))
    ensures agent' == agent.(table := agent'.table)
  {
    var key := StateKey(b);
    var prev := QValue(agent.table, key, action);
    var nextMax := NextMax(agent.table, StateKey(nb), nextValid);
    agent.(table := agent.table[(key, action) := Blend(prev, agent.alpha, reward + agent.gamma * nextMax)])
  }

  /** Reading the table after an update: only the written pair changed its value. */
  lemma UpdateReads(agent: Agent, b: Board, action: int, reward: real, nb: Board, nextValid: seq<int>,
                    key: Key, a: int)
    requires WellFormed(b) && WellFormed(nb)
    ensures (key, a) != (StateKey(b), action) ==>
              QValue(Update(agent, b, action, reward, nb, nextValid).table, key, a) == QValue(agent.table, key, a)
  {
  }

  /**
   * With 0 <= alpha <= 1 the new value lies between the prev value and the
   * target, no farther from the target than before; alpha 1 lands on it.
   */
  lemma BlendMovesToward(prev: real, alpha: real, target: real)
    requires 0.0 <= alpha <= 1.0
    ensures prev <= target ==> prev <= Blend(prev, alpha, target) <= target
    ensures target <= prev ==> target <= Blend(prev, alpha, target) <= prev
    ensures alpha == 1.0 ==> Blend(prev, alpha, target) == target
    ensures alpha == 0.0 ==> Blend(prev, alpha, target) == prev
  {
    var d := target - prev;
    assert Blend(prev, alpha, target) == prev + alpha * d;
    if d >= 0.0 {
      assert 0.0 <= alpha * d <= d;
    } else {
      assert d <= alpha * d <= 0.0;
    }
  }

  /** The same update applied n times towards a fixed target. */
  function Repeat(prev: real, alpha: real, target: real, n: nat): real
    decreases n
  {
    if n == 0 then prev else Repeat(Blend(prev, alpha, target), alpha, target, n - 1)
  }

  /**
   * With 0 <= alpha <= 1, repeated updates towards a fixed target never
   * overshoot it: the value stays between where it started and the target.
   */
  lemma {:induction false} RepeatStaysBetween(prev: real, alpha: real, target: real, n: nat)
    requires 0.0 <= alpha <= 1.0
    ensures prev <= target ==> prev <= Repeat(prev, alpha, target, n) <= target
    ensures target <= prev ==> target <= Repeat(prev, alpha, target, n) <= prev
    decreases n
  {
    if n > 0 {
      BlendMovesToward(prev, alpha, target);
      RepeatStaysBetween(Blend(prev, alpha, target), alpha, target, n - 1);
    }
  }

  // ---------------------------------------------------------------------------
  // Exploration schedule
  // ---------------------------------------------------------------------------

  /** decay_epsilon: epsilon shrinks by the decay factor while it is above the floor, and stays put otherwise. */
  function DecayEpsilon(agent: Agent): (agent': Agent)
    ensures agent.epsilon > agent.epsilonMin ==> agent'.epsilon == agent.epsilon * agent.epsilonDecay
    ensures agent.epsilon <= agent.epsilonMin ==> agent' == agent
    ensures agent' == agent.(epsilon := agent'.epsilon)
  {
    if agent.epsilon > agent.epsilonMin then agent.(epsilon := agent.epsilon * agent.epsilonDecay) else agent
  }

  /** n consecutive decays, as at the end of n training episodes. */
  function DecayTimes(agent: Agent, n: nat): Agent
    decreases n
  {
    if n == 0 then agent else DecayTimes(DecayEpsilon(agent), n - 1)
  }

  /**
   * With a decay factor in (0, 1] epsilon never rises, and it never sinks
   * below the smaller of its start and one decay step under the floor: the
   * last step taken starts above the floor.
   */
  lemma {:induction false} DecayBounds(agent: Agent, n: nat)
    requires 0.0 < agent.epsilonDecay <= 1.0 && agent.epsilon >= 0.0
    ensures var e := DecayTimes(agent, n).epsilon;
            e <= agent.epsilon
            && (e >= agent.epsilon || e >= agent.epsilonMin * agent.epsilonDecay)
            && e >= 0.0
    ensures DecayTimes(agent, n) == agent.(epsilon := DecayTimes(agent, n).epsilon)
    decreases n
  {
    if n > 0 {
      var a1 := DecayEpsilon(agent);
      if agent.epsilon > agent.epsilonMin {
        assert a1.epsilon == agent.epsilon * agent.epsilonDecay;
        assert a1.epsilon <= agent.epsilon;
        assert a1.epsilon >= agent.epsilonMin * agent.epsilonDecay;
        assert a1.epsilon >= 0.0;
      }
      DecayBounds(a1, n - 1);
    }
  }

  /** Once epsilon is at or below the floor, further decays change nothing. */
  lemma {:induction false} DecayStopsAtFloor(agent: Agent, n: nat)
    requires agent.epsilon <= agent.epsilonMin
    ensures DecayTimes(agent, n) == agent
    decreases n
  {
    if n > 0 {
      DecayStopsAtFloor(DecayEpsilon(agent), n - 1);
    }
  }
}
