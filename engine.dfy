/**
 * `GameEngine` and the playouts of `HeatMap` (tictactoe.hh).
 *
 * The game state is a value of type S. Its behaviour is given by Rules:
 * the open positions for a mover (`get_open_positions`), the effect of a
 * play (`State::play`: the new state and whether the play wins) and `flip`.
 * The `while (true)` of `GameEngine::play` is bounded by fuel; a run that
 * uses up its fuel has no result.
 */
module Engine {
  import opened Wrappers
  import opened Strategies

  datatype Rules<!S> = Rules(
    open: (S, Mark) -> seq<nat>,
    play: (S, nat, Mark) -> (S, bool),
    flip: Mark -> Mark)

  /** The winner `GameEngine::play(start)` returns from state s, and the state it leaves behind. */
  function Run<S>(rules: Rules<S>, strategy: Strategy<S>, s: S, mark: Mark, fuel: nat): (Option<Mark>, S)
    decreases fuel
  {
    if fuel == 0 then (None, s)
    else
      var open := rules.open(s, mark);
      if open == [] then (Some(Empty), s)
      else match strategy(s, mark, open)
        case None => Run(rules, strategy, s, rules.flip(mark), fuel - 1)
        case Some(pos) =>
          var (next, won) := rules.play(s, pos, mark);
          if won then (Some(mark), next) else Run(rules, strategy, next, rules.flip(mark), fuel - 1)
  }

  /** A finished game has the same outcome with any larger fuel. */
  lemma {:induction false} RunFuel<S>(rules: Rules<S>, strategy: Strategy<S>, s: S, mark: Mark, fuel: nat, more: nat)
    requires Run(rules, strategy, s, mark, fuel).0.Some? && fuel <= more
    ensures Run(rules, strategy, s, mark, more) == Run(rules, strategy, s, mark, fuel)
    decreases fuel
  {
    var open := rules.open(s, mark);
    if open != [] {
      match strategy(s, mark, open)
      case None =>
        RunFuel(rules, strategy, s, rules.flip(mark), fuel - 1, more - 1);
      case Some(pos) =>
        var (next, won) := rules.play(s, pos, mark);
        if !won {
          RunFuel(rules, strategy, next, rules.flip(mark), fuel - 1, more - 1);
        }
    }
  }

  /** With a flip that is its own inverse, the winner is the starting mark, its opponent or nobody. */
  lemma {:induction false} RunWinner<S>(rules: Rules<S>, strategy: Strategy<S>, s: S, start: Mark, fuel: nat)
    requires rules.flip(rules.flip(start)) == start
    ensures Run(rules, strategy, s, start, fuel).0 in {None, Some(Empty), Some(start), Some(rules.flip(start))}
    decreases fuel
  {
    var open := rules.open(s, start);
    if fuel > 0 && open != [] {
      match strategy(s, start, open)
      case None =>
        RunWinner(rules, strategy, s, rules.flip(start), fuel - 1);
      case Some(pos) =>
        var (next, won) := rules.play(s, pos, start);
        if !won {
          RunWinner(rules, strategy, next, rules.flip(start), fuel - 1);
        }
    }
  }

  /** Every play on an open position decreases size, so a game has at most size plays. */
  ghost predicate Decreasing<S(!new)>(rules: Rules<S>, size: S -> nat)
  {
    forall s, p, m :: p in rules.open(s, m) ==> size(rules.play(s, p, m).0) < size(s)
  }

  /** The strategy proposes one of the open positions whenever there are any. */
  ghost predicate AlwaysProposes<S(!new)>(rules: Rules<S>, strategy: Strategy<S>)
  {
    forall s, m :: rules.open(s, m) != [] ==>
      strategy(s, m, rules.open(s, m)).Some? && strategy(s, m, rules.open(s, m)).value in rules.open(s, m)
  }

  /** A strategy that always proposes an open position ends the game within size(s) + 1 rounds. */
  lemma {:induction false} RunTerminates<S(!new)>(rules: Rules<S>, strategy: Strategy<S>, size: S -> nat, s: S, mark: Mark)
    requires Decreasing(rules, size) && AlwaysProposes(rules, strategy)
    ensures Run(rules, strategy, s, mark, size(s) + 1).0.Some?
    decreases size(s)
  {
    var open := rules.open(s, mark);
    if open != [] {
      var pos := strategy(s, mark, open).value;
      var (next, won) := rules.play(s, pos, mark);
      if !won {
        RunTerminates(rules, strategy, size, next, rules.flip(mark));
        RunFuel(rules, strategy, next, rules.flip(mark), size(next) + 1, size(s));
      }
    }
  }

  /** `GameEngine`: a state that the engine plays on in place and a strategy. */
  class GameEngine<S> {
    const rules: Rules<S>
    const strategy: Strategy<S>
    var state: S

    constructor (rules: Rules<S>, state: S, strategy: Strategy<S>)
      ensures this.rules == rules && this.state == state && this.strategy == strategy
    {
      this.rules := rules;
      this.state := state;
      this.strategy := strategy;
    }

    /** `GameEngine::play(start)`: alternate the movers until one wins or no position is open. */
    method Play(start: Mark, fuel: nat) returns (winner: Option<Mark>)
      modifies this
      ensures (winner, state) == Run(rules, strategy, old(state), start, fuel)
    {
      var currentMark := start;
      var left := fuel;
      while left > 0
        invariant Run(rules, strategy, old(state), start, fuel) == Run(rules, strategy, state, currentMark, left)
      {
        var open := rules.open(state, currentMark);
        if open == [] {
          return Some(Empty);
        }
        var pos := strategy(state, currentMark, open);
        if pos.Some? {
          var (next, result) := rules.play(state, pos.value, currentMark);
          state := next;
          if result {
            return Some(currentMark);
          }
        }
        currentMark := rules.flip(currentMark);
        left := left - 1;
      }
      return None;
    }
  }

  // ----- the playouts of HeatMap -----

  /**
   * The random draws of the generator: the draw for trial t of the position
   * at index i of the open list, when the playout reaches state s with mover m.
   */
  type Draws<!S> = (nat, nat, S, Mark) -> int

  /** The strategy of one playout, `ForcingMove >> ForcingStrategy >> BiasedRandom`, with the draws of trial t of position index i. */
  function Playout<S>(v: View<S>, draws: Draws<S>, i: nat, t: nat): Strategy<S>
  {
    Combine(ForcingChain(v), BiasedRandomOf(v, (s: S, m: Mark) => draws(i, t, s, m)))
  }

  /** The winner of a run; a run that did not finish counts for neither mark. */
  function Winner(r: Option<Mark>): Mark
  {
    if r.Some? then r.value else Empty
  }

  /** The winners of the trials `monte_carlo` plays for position index i at pos: play pos for mark, then let flipped start. */
  function Winners<S>(rules: Rules<S>, v: View<S>, draws: Draws<S>, fuel: nat,
                      state: S, mark: Mark, flipped: Mark, i: nat, pos: nat, trials: nat): (r: seq<Mark>)
    ensures |r| == trials
  {
    var cloned := rules.play(state, pos, mark).0;
    seq(trials, t requires 0 <= t < trials => Winner(Run(rules, Playout(v, draws, i, t), cloned, flipped, fuel).0))
  }

  /** One trial of `monte_carlo`: a fresh engine on a copy of state after pos is played. */
  method Trial<S>(rules: Rules<S>, v: View<S>, draws: Draws<S>, fuel: nat,
                  state: S, mark: Mark, flipped: Mark, i: nat, pos: nat, t: nat) returns (winner: Mark)
    ensures winner == Winner(Run(rules, Playout(v, draws, i, t), rules.play(state, pos, mark).0, flipped, fuel).0)
  {
    var (cloned, _) := rules.play(state, pos, mark);
    var engine := new GameEngine(rules, cloned, Playout(v, draws, i, t));
    var result := engine.Play(flipped, fuel);
    winner := Winner(result);
  }

  /** `HeatMap::monte_carlo`: count the winners of the trials by mark, then subtract the wins of flipped from those of mark. */
  method MonteCarlo<S>(rules: Rules<S>, v: View<S>, draws: Draws<S>, fuel: nat,
                       state: S, mark: Mark, flipped: Mark, i: nat, pos: nat, trials: nat) returns (score: int)
    ensures score == Score(Winners(rules, v, draws, fuel, state, mark, flipped, i, pos, trials), mark, flipped)
  {
    ghost var all := Winners(rules, v, draws, fuel, state, mark, flipped, i, pos, trials);
    var winCounts := [0, 0, 0];
    var t := 0;
    while t < trials
      invariant 0 <= t <= trials && |winCounts| == 3
      invariant forall m :: winCounts[MarkIndex(m)] == Count(all[..t], m)
    {
      var winner := Trial(rules, v, draws, fuel, state, mark, flipped, i, pos, t);
      assert all[..t + 1] == all[..t] + [winner];
      winCounts := Tally(winCounts, all[..t], winner);
      t := t + 1;
    }
    assert all[..t] == all;
    score := winCounts[MarkIndex(mark)] - winCounts[MarkIndex(flipped)];
  }

  /** `win_counts[static_cast<int>(winner)]++`: the counts of every mark stay those of the winners so far. */
  method Tally(winCounts: seq<int>, ghost winners: seq<Mark>, winner: Mark) returns (r: seq<int>)
    requires |winCounts| == 3 && forall m :: winCounts[MarkIndex(m)] == Count(winners, m)
    ensures |r| == 3 && forall m :: r[MarkIndex(m)] == Count(winners + [winner], m)
  {
    var w := MarkIndex(winner);
    r := winCounts[w := winCounts[w] + 1];
    forall m ensures r[MarkIndex(m)] == Count(winners + [winner], m) {
      assert (winners + [winner])[..|winners|] == winners;
      if MarkIndex(m) == w {
        MarkIndexInjective(m, winner);
      }
    }
  }

  /** The scores `get_scores` computes, one per open position, with flipped = flip(mark). */
  function HeatScores<S>(rules: Rules<S>, v: View<S>, draws: Draws<S>, fuel: nat,
                         state: S, mark: Mark, open: seq<nat>, trials: nat): (r: seq<int>)
    ensures |r| == |open|
  {
    seq(|open|, i requires 0 <= i < |open| =>
      Score(Winners(rules, v, draws, fuel, state, mark, rules.flip(mark), i, open[i], trials), mark, rules.flip(mark)))
  }

  /** Every score lies in [-trials, trials]. */
  lemma HeatScoresBounded<S>(rules: Rules<S>, v: View<S>, draws: Draws<S>, fuel: nat,
                             state: S, mark: Mark, open: seq<nat>, trials: nat)
    ensures forall i :: 0 <= i < |open| ==>
      -(trials as int) <= HeatScores(rules, v, draws, fuel, state, mark, open, trials)[i] <= trials
  {
    forall i | 0 <= i < |open|
      ensures -(trials as int) <= HeatScores(rules, v, draws, fuel, state, mark, open, trials)[i] <= trials
    {
      ScoreBounds(Winners(rules, v, draws, fuel, state, mark, rules.flip(mark), i, open[i], trials), mark, rules.flip(mark));
    }
  }

  /** `HeatMap::get_scores`, one position after the other. */
  method GetScores<S>(rules: Rules<S>, v: View<S>, draws: Draws<S>, fuel: nat,
                      state: S, mark: Mark, open: seq<nat>, trials: nat) returns (score: seq<int>)
    ensures score == HeatScores(rules, v, draws, fuel, state, mark, open, trials)
  {
    var flipped := rules.flip(mark);
    score := [];
    var i := 0;
    while i < |open|
      invariant 0 <= i <= |open| && |score| == i
      invariant forall k :: 0 <= k < i ==> score[k] == HeatScores(rules, v, draws, fuel, state, mark, open, trials)[k]
    {
      var s := MonteCarlo(rules, v, draws, fuel, state, mark, flipped, i, open[i], trials);
      score := score + [s];
      i := i + 1;
    }
  }

  /**
   * `HeatMap::operator()`: the open position with the highest score, the
   * first one on ties; the scores are bounded by the number of trials.
   */
  method HeatMapChoose<S>(rules: Rules<S>, v: View<S>, draws: Draws<S>, fuel: nat,
                          state: S, mark: Mark, open: seq<nat>, trials: nat) returns (r: Option<nat>)
    requires |open| > 0
    ensures r.Some? && exists i: nat :: FirstMax(HeatScores(rules, v, draws, fuel, state, mark, open, trials), i) && r.value == open[i]
  {
    var score := GetScores(rules, v, draws, fuel, state, mark, open, trials);
    var winner := MaxElement(score);
    r := Some(open[winner]);
  }
}
