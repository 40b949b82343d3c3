/**
 * The move-selection strategies of tictactoe.hh: first-success chaining
 * (`operator||`, `Combiner`, `operator>>`), `ForcingMove`, `ForcingStrategy`,
 * `BiasedRandom` and the scoring and choice of `HeatMap`.
 *
 * The game state is not part of this model. A strategy reads it through
 * the per-line mark counts of the mover and of the opponent, the XOR table
 * of the lines, the accumulation of each position and the crossings of the
 * board, all passed in as values. A set of open positions is the sequence
 * of those positions in the order the set enumerates them.
 */
module Strategies {
  import opened Wrappers
  import opened Sorting

  /** `Mark`, in declaration order. */
  datatype Mark = X | O | Empty

  /** `static_cast<int>(mark)`. */
  function MarkIndex(m: Mark): (r: nat)
    ensures r < 3
  {
    match m
    case X => 0
    case O => 1
    case Empty => 2
  }

  lemma MarkIndexInjective(a: Mark, b: Mark)
    requires MarkIndex(a) == MarkIndex(b)
    ensures a == b
  {
  }

  // ----- first-success chaining -----

  /** `first || func`: first when it holds a value, otherwise what func returns. */
  function OrElse<T>(first: Option<T>, second: () -> Option<T>): Option<T>
  {
    if first.Some? then first else second()
  }

  /** The chain proposes something exactly when one of its parts does, and the first one that does wins. */
  lemma OrElseFirstSuccess<T>(first: Option<T>, second: () -> Option<T>)
    ensures OrElse(first, second).Some? <==> first.Some? || second().Some?
    ensures first.Some? ==> OrElse(first, second) == first
    ensures first.None? ==> OrElse(first, second) == second()
  {
  }

  /** Chaining is associative and has the empty proposal as identity on both sides. */
  lemma OrElseMonoid<T>(a: Option<T>, b: Option<T>, c: Option<T>)
    ensures OrElse(OrElse(a, () => b), () => c) == OrElse(a, () => OrElse(b, () => c))
    ensures OrElse(None, () => a) == a && OrElse(a, () => None) == a
  {
  }

  /** A strategy reads a state and proposes a position for a mark among the open ones. */
  type Strategy<!S> = (S, Mark, seq<nat>) -> Option<nat>

  /** `a >> b`, the `Combiner` of two strategies. */
  function Combine<S>(a: Strategy<S>, b: Strategy<S>): Strategy<S>
  {
    (s: S, m: Mark, o: seq<nat>) => OrElse(a(s, m, o), () => b(s, m, o))
  }

  /** The strategy that never proposes anything. */
  function Never<S>(): Strategy<S>
  {
    (s: S, m: Mark, o: seq<nat>) => None
  }

  /** `>>` is associative, `Never` is its identity, and the combiner takes a's proposal when a has one. */
  lemma CombineLaws<S>(a: Strategy<S>, b: Strategy<S>, c: Strategy<S>, s: S, m: Mark, o: seq<nat>)
    ensures Combine(Combine(a, b), c)(s, m, o) == Combine(a, Combine(b, c))(s, m, o)
    ensures Combine(Never(), a)(s, m, o) == a(s, m, o) && Combine(a, Never())(s, m, o) == a(s, m, o)
    ensures a(s, m, o).Some? ==> Combine(a, b)(s, m, o) == a(s, m, o)
    ensures a(s, m, o).None? ==> Combine(a, b)(s, m, o) == b(s, m, o)
  {
    var x, y, z := a(s, m, o), b(s, m, o), c(s, m, o);
    assert Combine(a, b)(s, m, o) == OrElse(x, () => y);
    assert Combine(b, c)(s, m, o) == OrElse(y, () => z);
    assert Combine(Combine(a, b), c)(s, m, o) == OrElse(OrElse(x, () => y), () => z);
    assert Combine(a, Combine(b, c))(s, m, o) == OrElse(x, () => OrElse(y, () => z));
    OrElseMonoid(x, y, z);
    assert Never<S>()(s, m, o) == None;
    assert Combine(Never(), a)(s, m, o) == OrElse(None, () => x);
    assert Combine(a, Never())(s, m, o) == OrElse(x, () => None);
  }

  // ----- ForcingMove -----

  /** Line i has n - 1 marks of current, none of opponent, and its missing cell is open. */
  predicate Completes(n: nat, current: seq<nat>, opponent: seq<nat>, xorTable: seq<nat>, open: seq<nat>, i: nat)
  {
    i < |current| && i < |opponent| && i < |xorTable| &&
    current[i] == n - 1 && opponent[i] == 0 && xorTable[i] in open
  }

  /** The cell `find_forcing_move` returns, scanning the lines from i on. */
  function FirstCompletion(n: nat, current: seq<nat>, opponent: seq<nat>, xorTable: seq<nat>, open: seq<nat>, i: nat): Option<nat>
    decreases |xorTable| - i
  {
    if i >= |xorTable| then None
    else if Completes(n, current, opponent, xorTable, open, i) then Some(xorTable[i])
    else FirstCompletion(n, current, opponent, xorTable, open, i + 1)
  }

  /** The scan finds the missing cell of the first completable line, and nothing when no line is completable. */
  lemma {:induction false} FirstCompletionMeaning(n: nat, current: seq<nat>, opponent: seq<nat>, xorTable: seq<nat>, open: seq<nat>, i: nat)
    ensures FirstCompletion(n, current, opponent, xorTable, open, i).None? <==>
      forall k :: i <= k < |xorTable| ==> !Completes(n, current, opponent, xorTable, open, k)
    ensures FirstCompletion(n, current, opponent, xorTable, open, i).Some? ==>
      exists k :: i <= k < |xorTable| && Completes(n, current, opponent, xorTable, open, k) &&
        FirstCompletion(n, current, opponent, xorTable, open, i).value == xorTable[k] &&
        forall j :: i <= j < k ==> !Completes(n, current, opponent, xorTable, open, j)
    ensures FirstCompletion(n, current, opponent, xorTable, open, i).Some? ==>
      FirstCompletion(n, current, opponent, xorTable, open, i).value in open
    decreases |xorTable| - i
  {
    if i < |xorTable| && !Completes(n, current, opponent, xorTable, open, i) {
      FirstCompletionMeaning(n, current, opponent, xorTable, open, i + 1);
    }
  }

  /** `ForcingMove::find_forcing_move`: the scan over the lines with an early return. */
  method FindForcingMove(n: nat, current: seq<nat>, opponent: seq<nat>, xorTable: seq<nat>, open: seq<nat>)
    returns (r: Option<nat>)
    requires |current| == |xorTable| && |opponent| == |xorTable|
    ensures r == FirstCompletion(n, current, opponent, xorTable, open, 0)
  {
    var i := 0;
    while i < |xorTable|
      invariant 0 <= i <= |xorTable|
      invariant FirstCompletion(n, current, opponent, xorTable, open, 0) ==
        FirstCompletion(n, current, opponent, xorTable, open, i)
    {
      if current[i] == n - 1 && opponent[i] == 0 {
        var trial := xorTable[i];
        if trial in open {
          return Some(trial);
        }
      }
      i := i + 1;
    }
    return None;
  }

  /** `ForcingMove::operator()`: the mover's own completion, else the opponent's. */
  function ForcingMove(n: nat, own: seq<nat>, other: seq<nat>, xorTable: seq<nat>, open: seq<nat>): Option<nat>
  {
    OrElse(FirstCompletion(n, own, other, xorTable, open, 0),
      () => FirstCompletion(n, other, own, xorTable, open, 0))
  }

  method ForcingMoveChoose(n: nat, own: seq<nat>, other: seq<nat>, xorTable: seq<nat>, open: seq<nat>)
    returns (r: Option<nat>)
    requires |own| == |xorTable| && |other| == |xorTable|
    ensures r == ForcingMove(n, own, other, xorTable, open)
  {
    r := FindForcingMove(n, own, other, xorTable, open);
    if r.None? {
      r := FindForcingMove(n, other, own, xorTable, open);
    }
  }

  /**
   * A forcing move is open; it completes a line of the mover when one can be
   * completed, and otherwise blocks the first line the opponent can complete.
   */
  lemma ForcingMoveMeaning(n: nat, own: seq<nat>, other: seq<nat>, xorTable: seq<nat>, open: seq<nat>)
    ensures ForcingMove(n, own, other, xorTable, open).Some? ==> ForcingMove(n, own, other, xorTable, open).value in open
    ensures (exists k :: 0 <= k < |xorTable| && Completes(n, own, other, xorTable, open, k)) ==>
      ForcingMove(n, own, other, xorTable, open) == FirstCompletion(n, own, other, xorTable, open, 0)
    ensures (forall k :: 0 <= k < |xorTable| ==> !Completes(n, own, other, xorTable, open, k)) ==>
      ForcingMove(n, own, other, xorTable, open) == FirstCompletion(n, other, own, xorTable, open, 0)
    ensures ForcingMove(n, own, other, xorTable, open).None? <==>
      forall k :: 0 <= k < |xorTable| ==>
        !Completes(n, own, other, xorTable, open, k) && !Completes(n, other, own, xorTable, open, k)
  {
    FirstCompletionMeaning(n, own, other, xorTable, open, 0);
    FirstCompletionMeaning(n, other, own, xorTable, open, 0);
  }

  // ----- ForcingStrategy -----

  /** Line l has n - 2 marks of current and none of opponent. */
  predicate Threat(n: nat, current: seq<nat>, opponent: seq<nat>, l: nat)
  {
    l < |current| && l < |opponent| && current[l] == n - 2 && opponent[l] == 0
  }

  /** Some crossing pair at a position has both its lines threatening. */
  predicate Fork(n: nat, current: seq<nat>, opponent: seq<nat>, pairs: seq<(nat, nat)>)
  {
    exists k :: 0 <= k < |pairs| && Threat(n, current, opponent, pairs[k].0) && Threat(n, current, opponent, pairs[k].1)
  }

  /** The position `ForcingStrategy::find_forcing_move` returns, scanning the open positions from k on. */
  function FirstFork(n: nat, current: seq<nat>, opponent: seq<nat>, crossings: seq<seq<(nat, nat)>>, open: seq<nat>, k: nat): Option<nat>
    decreases |open| - k
  {
    if k >= |open| then None
    else if open[k] < |crossings| && Fork(n, current, opponent, crossings[open[k]]) then Some(open[k])
    else FirstFork(n, current, opponent, crossings, open, k + 1)
  }

  /** The scan finds the first open position with a double threat, and nothing when there is none. */
  lemma {:induction false} FirstForkMeaning(n: nat, current: seq<nat>, opponent: seq<nat>, crossings: seq<seq<(nat, nat)>>, open: seq<nat>, k: nat)
    ensures FirstFork(n, current, opponent, crossings, open, k).None? <==>
      forall j :: k <= j < |open| ==> !(open[j] < |crossings| && Fork(n, current, opponent, crossings[open[j]]))
    ensures FirstFork(n, current, opponent, crossings, open, k).Some? ==>
      exists j :: k <= j < |open| && FirstFork(n, current, opponent, crossings, open, k).value == open[j] &&
        open[j] < |crossings| && Fork(n, current, opponent, crossings[open[j]]) &&
        forall i :: k <= i < j ==> !(open[i] < |crossings| && Fork(n, current, opponent, crossings[open[i]]))
    decreases |open| - k
  {
    if k < |open| && !(open[k] < |crossings| && Fork(n, current, opponent, crossings[open[k]])) {
      FirstForkMeaning(n, current, opponent, crossings, open, k + 1);
    }
  }

  /** The inner loop over the crossing pairs of one position. */
  method HasFork(n: nat, current: seq<nat>, opponent: seq<nat>, pairs: seq<(nat, nat)>) returns (found: bool)
    requires forall k :: 0 <= k < |pairs| ==> pairs[k].0 < |current| && pairs[k].1 < |current|
    requires |opponent| == |current|
    ensures found == Fork(n, current, opponent, pairs)
  {
    var k := 0;
    while k < |pairs|
      invariant 0 <= k <= |pairs|
      invariant forall j :: 0 <= j < k ==>
        !(Threat(n, current, opponent, pairs[j].0) && Threat(n, current, opponent, pairs[j].1))
    {
      var (lineA, lineB) := pairs[k];
      if current[lineA] == n - 2 && opponent[lineA] == 0 && current[lineB] == n - 2 && opponent[lineB] == 0 {
        assert Threat(n, current, opponent, pairs[k].0) && Threat(n, current, opponent, pairs[k].1);
        return true;
      }
      k := k + 1;
    }
    return false;
  }

  /** Crossing pairs name lines below lineCount at every position. */
  predicate CrossingsBelow(crossings: seq<seq<(nat, nat)>>, lineCount: nat)
  {
    forall p, k :: 0 <= p < |crossings| && 0 <= k < |crossings[p]| ==>
      crossings[p][k].0 < lineCount && crossings[p][k].1 < lineCount
  }

  /** `ForcingStrategy::find_forcing_move`: the scan over the open positions. */
  method FindFork(n: nat, current: seq<nat>, opponent: seq<nat>, crossings: seq<seq<(nat, nat)>>, open: seq<nat>)
    returns (r: Option<nat>)
    requires |opponent| == |current| && CrossingsBelow(crossings, |current|)
    requires forall k :: 0 <= k < |open| ==> open[k] < |crossings|
    ensures r == FirstFork(n, current, opponent, crossings, open, 0)
  {
    var k := 0;
    while k < |open|
      invariant 0 <= k <= |open|
      invariant FirstFork(n, current, opponent, crossings, open, 0) == FirstFork(n, current, opponent, crossings, open, k)
    {
      var pos := open[k];
      var found := HasFork(n, current, opponent, crossings[pos]);
      if found {
        return Some(pos);
      }
      k := k + 1;
    }
    return None;
  }

  /** `ForcingStrategy::operator()`: the mover's own double threat, else the opponent's. */
  function ForcingStrategy(n: nat, own: seq<nat>, other: seq<nat>, crossings: seq<seq<(nat, nat)>>, open: seq<nat>): Option<nat>
  {
    OrElse(FirstFork(n, own, other, crossings, open, 0), () => FirstFork(n, other, own, crossings, open, 0))
  }

  method ForcingStrategyChoose(n: nat, own: seq<nat>, other: seq<nat>, crossings: seq<seq<(nat, nat)>>, open: seq<nat>)
    returns (r: Option<nat>)
    requires |other| == |own| && CrossingsBelow(crossings, |own|)
    requires forall k :: 0 <= k < |open| ==> open[k] < |crossings|
    ensures r == ForcingStrategy(n, own, other, crossings, open)
  {
    r := FindFork(n, own, other, crossings, open);
    if r.None? {
      r := FindFork(n, other, own, crossings, open);
    }
  }

  /** A double-threat move is open, and it is the mover's own when the mover has one. */
  lemma ForcingStrategyMeaning(n: nat, own: seq<nat>, other: seq<nat>, crossings: seq<seq<(nat, nat)>>, open: seq<nat>)
    ensures ForcingStrategy(n, own, other, crossings, open).Some? ==>
      ForcingStrategy(n, own, other, crossings, open).value in open
    ensures (exists j :: 0 <= j < |open| && open[j] < |crossings| && Fork(n, own, other, crossings[open[j]])) ==>
      ForcingStrategy(n, own, other, crossings, open) == FirstFork(n, own, other, crossings, open, 0)
    ensures ForcingStrategy(n, own, other, crossings, open).None? <==>
      forall j :: 0 <= j < |open| && open[j] < |crossings| ==>
        !Fork(n, own, other, crossings[open[j]]) && !Fork(n, other, own, crossings[open[j]])
  {
    FirstForkMeaning(n, own, other, crossings, open, 0);
    FirstForkMeaning(n, other, own, crossings, open, 0);
  }

  // ----- BiasedRandom -----

  /** Σ accumulation[p] over the open positions p. */
  function Total(accumulation: seq<nat>, open: seq<nat>): nat
  {
    if open == [] then 0
    else
      var last := open[|open| - 1];
      Total(accumulation, open[..|open| - 1]) + (if last < |accumulation| then accumulation[last] else 0)
  }

  /** Running totals only grow along the open positions. */
  lemma {:induction false} TotalMonotone(accumulation: seq<nat>, open: seq<nat>, i: nat, j: nat)
    requires i <= j <= |open|
    ensures Total(accumulation, open[..i]) <= Total(accumulation, open[..j])
    decreases j - i
  {
    if i < j {
      TotalMonotone(accumulation, open, i, j - 1);
      assert open[..j][..j - 1] == open[..j - 1];
    }
  }

  /** The first loop of `BiasedRandom::operator()`. */
  method SumAccumulation(accumulation: seq<nat>, open: seq<nat>) returns (total: nat)
    requires forall k :: 0 <= k < |open| ==> open[k] < |accumulation|
    ensures total == Total(accumulation, open)
  {
    total := 0;
    var k := 0;
    while k < |open|
      invariant 0 <= k <= |open| && total == Total(accumulation, open[..k])
    {
      assert open[..k + 1][..k] == open[..k];
      total := total + accumulation[open[k]];
      k := k + 1;
    }
    assert open[..k] == open;
  }

  /** The position the second loop of `BiasedRandom::operator()` stops at for the draw chosen, scanning from the front. */
  function Pick(accumulation: seq<nat>, open: seq<nat>, chosen: int): Option<nat>
  {
    if open == [] then None
    else
      var weight := if open[0] < |accumulation| then accumulation[open[0]] else 0;
      if chosen < weight then Some(open[0]) else Pick(accumulation, open[1..], chosen - weight)
  }

  /** A picked position is open; for a draw that is not negative it also has a positive accumulation. */
  lemma {:induction false} PickOpen(accumulation: seq<nat>, open: seq<nat>, chosen: int)
    ensures Pick(accumulation, open, chosen).Some? ==> Pick(accumulation, open, chosen).value in open
    ensures Pick(accumulation, open, chosen).Some? && chosen >= 0 ==>
      Pick(accumulation, open, chosen).value < |accumulation| && accumulation[Pick(accumulation, open, chosen).value] > 0
  {
    if open != [] {
      var weight := if open[0] < |accumulation| then accumulation[open[0]] else 0;
      if chosen >= weight {
        PickOpen(accumulation, open[1..], chosen - weight);
      }
    }
  }

  /**
   * `BiasedRandom::operator()` for the draw `chosen` of
   * `uniform_int_distribution(0, total - 1)`: the open position at which
   * the running total first exceeds chosen. That position is open and
   * has a positive accumulation.
   */
  method BiasedRandom(accumulation: seq<nat>, open: seq<nat>, chosen: int) returns (r: Option<nat>)
    requires forall k :: 0 <= k < |open| ==> open[k] < |accumulation|
    requires 0 <= chosen < Total(accumulation, open)
    ensures r.Some?
    ensures exists k :: 0 <= k < |open| && r.value == open[k] &&
                        Total(accumulation, open[..k]) <= chosen < Total(accumulation, open[..k + 1])
    ensures r.value in open && accumulation[r.value] > 0
    ensures r == Pick(accumulation, open, chosen)
  {
    var total := SumAccumulation(accumulation, open);
    var previous := 0;
    assert open != [];
    var k := 0;
    while k < |open|
      invariant 0 <= k < |open| && previous == Total(accumulation, open[..k]) && previous <= chosen
      invariant Pick(accumulation, open, chosen) == Pick(accumulation, open[k..], chosen - previous)
    {
      assert open[..k + 1][..k] == open[..k];
      assert open[k..][1..] == open[k + 1..];
      var current := previous + accumulation[open[k]];
      if k == |open| - 1 {
        assert open[..k + 1] == open;
      }
      if chosen < current {
        return Some(open[k]);
      }
      previous := current;
      k := k + 1;
    }
    assert false;
  }

  // ----- HeatMap -----

  /** The number of trials the mark won. */
  function Count(winners: seq<Mark>, m: Mark): (r: nat)
  {
    if winners == [] then 0
    else Count(winners[..|winners| - 1], m) + (if winners[|winners| - 1] == m then 1 else 0)
  }

  /** The score of `monte_carlo`: wins of mark minus wins of flipped. */
  function Score(winners: seq<Mark>, mark: Mark, flipped: Mark): int
  {
    Count(winners, mark) - Count(winners, flipped)
  }

  lemma {:induction false} CountBound(winners: seq<Mark>, a: Mark, b: Mark)
    ensures Count(winners, a) <= |winners|
    ensures a != b ==> Count(winners, a) + Count(winners, b) <= |winners|
  {
    if winners != [] {
      CountBound(winners[..|winners| - 1], a, b);
    }
  }

  /** A score lies in [-trials, trials] and changes sign when the two marks trade places. */
  lemma ScoreBounds(winners: seq<Mark>, mark: Mark, flipped: Mark)
    ensures -|winners| <= Score(winners, mark, flipped) <= |winners|
    ensures Score(winners, flipped, mark) == -Score(winners, mark, flipped)
    ensures mark != flipped && (forall t :: 0 <= t < |winners| ==> winners[t] == mark) ==>
      Score(winners, mark, flipped) == |winners|
  {
    CountBound(winners, mark, flipped);
    CountBound(winners, flipped, mark);
    if mark != flipped && forall t :: 0 <= t < |winners| ==> winners[t] == mark {
      AllWon(winners, mark, flipped);
    }
  }

  lemma {:induction false} AllWon(winners: seq<Mark>, mark: Mark, other: Mark)
    requires mark != other && forall t :: 0 <= t < |winners| ==> winners[t] == mark
    ensures Count(winners, mark) == |winners| && Count(winners, other) == 0
  {
    if winners != [] {
      AllWon(winners[..|winners| - 1], mark, other);
    }
  }

  /** Index i holds a maximum of score, and every earlier entry is smaller. */
  predicate FirstMax(score: seq<int>, i: nat)
  {
    i < |score| && (forall j :: 0 <= j < |score| ==> score[j] <= score[i]) &&
    (forall j :: 0 <= j < i ==> score[j] < score[i])
  }

  /** There is one first maximum. */
  lemma FirstMaxUnique(score: seq<int>, i: nat, j: nat)
    requires FirstMax(score, i) && j < |score|
    ensures FirstMax(score, j) <==> j == i
  {
    if j < i {
      assert score[j] < score[i];
    } else if i < j {
      assert score[j] <= score[i];
    }
  }

  /** `max_element`: the first maximum of a non-empty list. */
  method MaxElement(score: seq<int>) returns (winner: nat)
    requires |score| > 0
    ensures FirstMax(score, winner)
  {
    winner := 0;
    var i := 1;
    while i < |score|
      invariant 1 <= i <= |score| && winner < i
      invariant forall j :: 0 <= j < i ==> score[j] <= score[winner]
      invariant forall j :: 0 <= j < winner ==> score[j] < score[winner]
    {
      if score[winner] < score[i] {
        winner := i;
      }
      i := i + 1;
    }
  }

  // ----- strategies over a game state -----

  /**
   * What a strategy reads of a state of type S: the per-line mark counts of
   * a mark (`get_current`) and of its opponent (`get_opponent`), the XOR
   * table of the lines, the accumulation of each position, and the crossing
   * pairs of each position, which belong to the board.
   */
  datatype View<!S> = View(
    n: nat,
    current: (S, Mark) -> seq<nat>,
    opponent: (S, Mark) -> seq<nat>,
    xorTable: S -> seq<nat>,
    accumulation: S -> seq<nat>,
    crossings: seq<seq<(nat, nat)>>)

  /** `ForcingMove(state)` as a strategy. */
  function ForcingMoveOf<S>(v: View<S>): Strategy<S>
  {
    (s: S, m: Mark, o: seq<nat>) => ForcingMove(v.n, v.current(s, m), v.opponent(s, m), v.xorTable(s), o)
  }

  /** `ForcingStrategy(state, data)` as a strategy. */
  function ForcingStrategyOf<S>(v: View<S>): Strategy<S>
  {
    (s: S, m: Mark, o: seq<nat>) => ForcingStrategy(v.n, v.current(s, m), v.opponent(s, m), v.crossings, o)
  }

  /** `BiasedRandom(state, generator)` as a strategy, with draw giving the generator's draw for a state and mover. */
  function BiasedRandomOf<S>(v: View<S>, draw: (S, Mark) -> int): Strategy<S>
  {
    (s: S, m: Mark, o: seq<nat>) => Pick(v.accumulation(s), o, draw(s, m))
  }

  /** `ForcingMove(state) >> ForcingStrategy(state, data)`. */
  function ForcingChain<S>(v: View<S>): Strategy<S>
  {
    Combine(ForcingMoveOf(v), ForcingStrategyOf(v))
  }

  /** A strategy that only ever proposes one of the open positions it is given. */
  ghost predicate ProposesOpen<S(!new)>(st: Strategy<S>)
  {
    forall s, m, o :: st(s, m, o).Some? ==> st(s, m, o).value in o
  }

  lemma CombineProposesOpen<S(!new)>(a: Strategy<S>, b: Strategy<S>)
    requires ProposesOpen(a) && ProposesOpen(b)
    ensures ProposesOpen(Combine(a, b))
  {
    forall s, m, o ensures Combine(a, b)(s, m, o).Some? ==> Combine(a, b)(s, m, o).value in o {
      assert Combine(a, b)(s, m, o) == OrElse(a(s, m, o), () => b(s, m, o));
    }
  }

  /** The forcing chain proposes only open positions. */
  lemma ForcingChainOpen<S>(v: View<S>, s: S, m: Mark, o: seq<nat>)
    ensures ForcingChain(v)(s, m, o).Some? ==> ForcingChain(v)(s, m, o).value in o
  {
    ForcingMoveMeaning(v.n, v.current(s, m), v.opponent(s, m), v.xorTable(s), o);
    ForcingStrategyMeaning(v.n, v.current(s, m), v.opponent(s, m), v.crossings, o);
    assert ForcingChain(v)(s, m, o) == OrElse(ForcingMoveOf(v)(s, m, o), () => ForcingStrategyOf(v)(s, m, o));
  }

  /** Every strategy of tictactoe.hh proposes only open positions. */
  lemma StrategiesProposeOpen<S(!new)>(v: View<S>, draw: (S, Mark) -> int)
    ensures ProposesOpen(ForcingMoveOf(v)) && ProposesOpen(ForcingStrategyOf(v))
    ensures ProposesOpen(BiasedRandomOf(v, draw)) && ProposesOpen(ForcingChain(v))
  {
    forall s, m, o ensures ForcingMoveOf(v)(s, m, o).Some? ==> ForcingMoveOf(v)(s, m, o).value in o {
      ForcingMoveMeaning(v.n, v.current(s, m), v.opponent(s, m), v.xorTable(s), o);
    }
    forall s, m, o ensures ForcingStrategyOf(v)(s, m, o).Some? ==> ForcingStrategyOf(v)(s, m, o).value in o {
      ForcingStrategyMeaning(v.n, v.current(s, m), v.opponent(s, m), v.crossings, o);
    }
    forall s, m, o ensures BiasedRandomOf(v, draw)(s, m, o).Some? ==> BiasedRandomOf(v, draw)(s, m, o).value in o {
      PickOpen(v.accumulation(s), o, draw(s, m));
    }
    CombineProposesOpen(ForcingMoveOf(v), ForcingStrategyOf(v));
  }

  /**
   * On a state where no line holds a mark (an empty board) of a game with
   * lines of at least three cells, the forcing chain proposes nothing.
   */
  lemma ForcingChainQuiet<S>(v: View<S>, s: S, m: Mark, o: seq<nat>)
    requires v.n >= 3
    requires forall i :: 0 <= i < |v.current(s, m)| ==> v.current(s, m)[i] == 0
    requires forall i :: 0 <= i < |v.opponent(s, m)| ==> v.opponent(s, m)[i] == 0
    ensures ForcingChain(v)(s, m, o) == None
  {
    var own, other := v.current(s, m), v.opponent(s, m);
    FirstCompletionMeaning(v.n, own, other, v.xorTable(s), o, 0);
    FirstCompletionMeaning(v.n, other, own, v.xorTable(s), o, 0);
    FirstForkMeaning(v.n, own, other, v.crossings, o, 0);
    FirstForkMeaning(v.n, other, own, v.crossings, o, 0);
    assert ForcingMoveOf(v)(s, m, o) == None;
    assert ForcingStrategyOf(v)(s, m, o) == None;
  }
}
