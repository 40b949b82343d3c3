/**
 * `MiniMax` (tictactoe.hh): the recursive three-valued solver. A node is a
 * state and the mark to move; its value is the mark that wins with best
 * play, or `Empty` for a draw. `parent` is the best result the caller has
 * so far; when the caller already has a draw, a node stops at its first
 * drawn child.
 *
 * As in the source, the forcing chain and the heat map read the member
 * `state` (the state the solver was created with), not the state of the
 * node, and the forcing branch passes `parent` on unchanged.
 */
module Solver {
  import opened Wrappers
  import opened Sorting
  import opened Strategies
  import opened Engine

  // ----- candidate order -----

  /** The order of `sort(rbegin(paired), rend(paired))`: descending by score, then by position. */
  predicate PairGe(a: (int, nat), b: (int, nat))
  {
    a.0 > b.0 || (a.0 == b.0 && a.1 >= b.1)
  }

  lemma PairGeTotal()
    ensures TotalOrder(PairGe)
  {
  }

  /** `paired[i] = make_pair(scores[i], open[i])`. */
  function Paired(scores: seq<int>, open: seq<nat>): seq<(int, nat)>
    requires |scores| == |open|
  {
    seq(|open|, i requires 0 <= i < |open| => (scores[i], open[i]))
  }

  /** The positions of a list of pairs. */
  function Positions(paired: seq<(int, nat)>): seq<nat>
  {
    seq(|paired|, i requires 0 <= i < |paired| => paired[i].1)
  }

  /** The pairs sorted by `sort(rbegin(paired), rend(paired))`. */
  function Ranked(scores: seq<int>, open: seq<nat>): seq<(int, nat)>
    requires |scores| == |open|
  {
    Sort(Paired(scores, open), PairGe)
  }

  /** The order in which `MiniMax::play` tries the open positions. */
  function Order(scores: seq<int>, open: seq<nat>): seq<nat>
    requires |scores| == |open|
  {
    if |open| < 7 then open else Positions(Ranked(scores, open))
  }

  /**
   * Fewer than seven open positions are tried in open order; otherwise by
   * descending (score, position), where the ranked pairs are a permutation
   * of the scored positions. Either way exactly the open positions are tried.
   */
  lemma OrderMeaning(scores: seq<int>, open: seq<nat>)
    requires |scores| == |open|
    ensures |open| < 7 ==> Order(scores, open) == open
    ensures |open| >= 7 ==> Order(scores, open) == Positions(Ranked(scores, open))
    ensures |open| >= 7 ==> SortedBy(Ranked(scores, open), PairGe)
    ensures |open| >= 7 ==> multiset(Ranked(scores, open)) == multiset(Paired(scores, open))
    ensures |Order(scores, open)| == |open|
    ensures forall x :: x in Order(scores, open) <==> x in open
  {
    if |open| >= 7 {
      PairGeTotal();
      SortIsSorted(Paired(scores, open), PairGe);
      var paired, ranked := Paired(scores, open), Ranked(scores, open);
      forall x ensures x in Positions(ranked) <==> x in open {
        if x in Positions(ranked) {
          var i :| 0 <= i < |ranked| && ranked[i].1 == x;
          assert ranked[i] in multiset(paired);
          var j :| 0 <= j < |paired| && paired[j] == ranked[i];
          assert open[j] == x;
        }
        if x in open {
          var j :| 0 <= j < |open| && open[j] == x;
          assert paired[j] in multiset(ranked);
          var i :| 0 <= i < |ranked| && ranked[i] == paired[j];
          assert Positions(ranked)[i] == x;
        }
      }
    }
  }

  // ----- the value of a game -----

  /**
   * The outcome of playing p: the mover if the play wins, otherwise the
   * value of the position that follows for the opponent.
   */
  ghost function MoveValue<S(!new)>(rules: Rules<S>, size: S -> nat, s: S, mark: Mark, p: nat): Mark
    requires Decreasing(rules, size) && p in rules.open(s, mark)
    decreases size(s), 0
  {
    var (next, won) := rules.play(s, p, mark);
    if won then mark else GameValue(rules, size, next, rules.flip(mark))
  }

  /**
   * The value of a node with best play: the mover wins if some open position
   * wins for it, draws if some open position draws, and loses otherwise; a
   * node without open positions is a draw.
   */
  ghost function GameValue<S(!new)>(rules: Rules<S>, size: S -> nat, s: S, mark: Mark): Mark
    requires Decreasing(rules, size)
    decreases size(s), 1
  {
    var open := rules.open(s, mark);
    if open == [] then Empty
    else if exists k :: 0 <= k < |open| && MoveValue(rules, size, s, mark, open[k]) == mark then mark
    else if exists k :: 0 <= k < |open| && MoveValue(rules, size, s, mark, open[k]) == Empty then Empty
    else rules.flip(mark)
  }

  /** `flip` exchanges the two players. */
  predicate Swaps<S>(rules: Rules<S>)
  {
    rules.flip(X) == O && rules.flip(O) == X
  }

  /** The forcing chain proposes nothing on state s, whatever the mover and the open positions. */
  ghost predicate Quiet<S(!new)>(v: View<S>, s: S)
  {
    forall m, o :: ForcingChain(v)(s, m, o).None?
  }

  /** `MiniMax`: the member state, the board it is read through, and the number of nodes visited. */
  class MiniMax<S(!new)> {
    const rules: Rules<S>
    const view: View<S>
    const state: S
    /** The generator's draws for the heat map at each node. */
    const draws: (S, Mark) -> Draws<S>
    /** The bound on the rounds of each playout of the heat map. */
    const fuel: nat
    /** A measure that every play decreases (the number of empty cells). */
    ghost const size: S -> nat
    var nodesVisited: nat

    constructor (rules: Rules<S>, view: View<S>, state: S, draws: (S, Mark) -> Draws<S>, fuel: nat, ghost size: S -> nat)
      ensures this.rules == rules && this.view == view && this.state == state
      ensures this.draws == draws && this.fuel == fuel && this.size == size
      ensures nodesVisited == 0
    {
      this.rules := rules;
      this.view := view;
      this.state := state;
      this.draws := draws;
      this.fuel := fuel;
      this.size := size;
      nodesVisited := 0;
    }

    /** The candidates of a node: the heat map plays out `5 * count` trials per position from the member state. */
    function Candidates(current: S, mark: Mark, open: seq<nat>): seq<nat>
    {
      Order(HeatScores(rules, view, draws(current, mark), fuel, state, mark, open, 5 * |open|), open)
    }

    /** The result of `play(current_state, mark, rank, parent)`. */
    function Value(current: S, mark: Mark, parent: Mark): Mark
      requires Decreasing(rules, size)
      decreases size(current), 1
    {
      var open := rules.open(current, mark);
      if open == [] then Empty
      else
        var forcing := ForcingChain(view)(state, mark, open);
        if forcing.Some? then
          ForcingChainOpen(view, state, mark, open);
          var (next, won) := rules.play(current, forcing.value, mark);
          if won then mark else Value(next, rules.flip(mark), parent)
        else
          var cands := Candidates(current, mark, open);
          OrderMeaning(HeatScores(rules, view, draws(current, mark), fuel, state, mark, open, 5 * |open|), open);
          Scan(current, mark, parent, cands, 0, rules.flip(mark))
    }

    /** The loop over the candidates from index i on, with `current_best` equal to best. */
    function Scan(current: S, mark: Mark, parent: Mark, cands: seq<nat>, i: nat, best: Mark): Mark
      requires Decreasing(rules, size)
      requires forall k :: 0 <= k < |cands| ==> cands[k] in rules.open(current, mark)
      decreases size(current), 0, |cands| - i
    {
      if i >= |cands| then best
      else
        var (next, won) := rules.play(current, cands[i], mark);
        if won then mark
        else
          var child := Value(next, rules.flip(mark), best);
          if child == mark then mark
          else if child == Empty && parent == Empty then Empty
          else Scan(current, mark, parent, cands, i + 1, if child == Empty then Empty else best)
    }

    /** `play(current_state, mark)`: the search from the root, with parent flip(mark). */
    method Play(current: S, mark: Mark) returns (r: Mark)
      requires Decreasing(rules, size)
      modifies this
      ensures r == Value(current, mark, rules.flip(mark))
      ensures nodesVisited > old(nodesVisited)
    {
      r := PlayNode(current, mark, rules.flip(mark));
    }

    /** `play(current_state, mark, rank, parent)`. */
    method PlayNode(current: S, mark: Mark, parent: Mark) returns (r: Mark)
      requires Decreasing(rules, size)
      modifies this
      ensures r == Value(current, mark, parent)
      ensures nodesVisited > old(nodesVisited)
      decreases size(current), 1
    {
      var open := rules.open(current, mark);
      nodesVisited := nodesVisited + 1;
      if open == [] {
        return Empty;
      }
      var forcing := ForcingChain(view)(state, mark, open);
      if forcing.Some? {
        ForcingChainOpen(view, state, mark, open);
        var (cloned, result) := rules.play(current, forcing.value, mark);
        if result {
          return mark;
        }
        r := PlayNode(cloned, rules.flip(mark), parent);
        return;
      }
      var cands := CandidateList(current, mark, open);
      OrderMeaning(HeatScores(rules, view, draws(current, mark), fuel, state, mark, open, 5 * |open|), open);
      r := ScanCandidates(current, mark, parent, cands);
    }

    /** `paired`, in the order the loop visits it; only its positions matter. */
    method CandidateList(current: S, mark: Mark, open: seq<nat>) returns (cands: seq<nat>)
      ensures cands == Candidates(current, mark, open)
    {
      if |open| < 7 {
        cands := open;
      } else {
        var scores := GetScores(rules, view, draws(current, mark), fuel, state, mark, open, 5 * |open|);
        cands := Positions(Sort(Paired(scores, open), PairGe));
      }
    }

    /** The loop over `paired` with `current_best`. */
    method ScanCandidates(current: S, mark: Mark, parent: Mark, cands: seq<nat>) returns (r: Mark)
      requires Decreasing(rules, size)
      requires forall k :: 0 <= k < |cands| ==> cands[k] in rules.open(current, mark)
      modifies this
      ensures r == Scan(current, mark, parent, cands, 0, rules.flip(mark))
      ensures nodesVisited >= old(nodesVisited)
      decreases size(current), 0
    {
      var currentBest := rules.flip(mark);
      var x := 0;
      while x < |cands|
        invariant 0 <= x <= |cands|
        invariant Scan(current, mark, parent, cands, 0, rules.flip(mark)) == Scan(current, mark, parent, cands, x, currentBest)
        invariant nodesVisited >= old(nodesVisited)
      {
        var (cloned, result) := rules.play(current, cands[x], mark);
        if result {
          return mark;
        }
        var newResult := PlayNode(cloned, rules.flip(mark), currentBest);
        if newResult == mark {
          return mark;
        }
        if newResult == Empty {
          if parent == Empty {
            return Empty;
          }
          currentBest := Empty;
        }
        x := x + 1;
      }
      r := currentBest;
    }

    /** With a flip that is its own inverse, a node's value is its mover, its opponent or a draw. */
    lemma ValueRange(current: S, mark: Mark, parent: Mark)
      requires Decreasing(rules, size) && rules.flip(rules.flip(mark)) == mark
      ensures Value(current, mark, parent) in {mark, Empty, rules.flip(mark)}
      decreases size(current), 1
    {
      var open := rules.open(current, mark);
      if open != [] {
        var forcing := ForcingChain(view)(state, mark, open);
        if forcing.Some? {
          ForcingChainOpen(view, state, mark, open);
          var (next, won) := rules.play(current, forcing.value, mark);
          if !won {
            ValueRange(next, rules.flip(mark), parent);
          }
        } else {
          var cands := Candidates(current, mark, open);
          OrderMeaning(HeatScores(rules, view, draws(current, mark), fuel, state, mark, open, 5 * |open|), open);
          ScanRange(current, mark, parent, cands, 0, rules.flip(mark));
        }
      }
    }

    lemma ScanRange(current: S, mark: Mark, parent: Mark, cands: seq<nat>, i: nat, best: Mark)
      requires Decreasing(rules, size) && rules.flip(rules.flip(mark)) == mark
      requires forall k :: 0 <= k < |cands| ==> cands[k] in rules.open(current, mark)
      ensures Scan(current, mark, parent, cands, i, best) in {mark, Empty, best}
      decreases size(current), 0, |cands| - i
    {
      if i < |cands| {
        var (next, won) := rules.play(current, cands[i], mark);
        if !won {
          var child := Value(next, rules.flip(mark), best);
          if child != mark && !(child == Empty && parent == Empty) {
            ScanRange(current, mark, parent, cands, i + 1, if child == Empty then Empty else best);
          }
        }
      }
    }

    /**
     * When the forcing chain is quiet on the member state, the solver is
     * exact: with a parent that is not a draw it returns the game value;
     * with a drawn parent it may answer a draw for a node its mover wins,
     * which cannot change the caller's result, and is exact otherwise.
     */
    lemma {:induction false} ValueExact(current: S, mark: Mark, parent: Mark)
      requires Decreasing(rules, size) && Swaps(rules) && Quiet(view, state) && mark != Empty
      ensures parent != Empty ==> Value(current, mark, parent) == GameValue(rules, size, current, mark)
      ensures parent == Empty && Value(current, mark, parent) == Empty ==>
        GameValue(rules, size, current, mark) in {Empty, mark}
      ensures parent == Empty && Value(current, mark, parent) != Empty ==>
        Value(current, mark, parent) == GameValue(rules, size, current, mark)
      decreases size(current), 1
    {
      var open := rules.open(current, mark);
      if open != [] {
        assert ForcingChain(view)(state, mark, open).None?;
        var cands := Candidates(current, mark, open);
        OrderMeaning(HeatScores(rules, view, draws(current, mark), fuel, state, mark, open, 5 * |open|), open);
        assert Value(current, mark, parent) == Scan(current, mark, parent, cands, 0, rules.flip(mark));
        ScanExact(current, mark, parent, cands, 0, rules.flip(mark));
        SettledGameValue(current, mark, cands);
      }
    }

    /** Before the scan starts, what it decides is the game value of the node. */
    lemma SettledGameValue(current: S, mark: Mark, cands: seq<nat>)
      requires Decreasing(rules, size) && Swaps(rules) && mark != Empty
      requires rules.open(current, mark) != []
      requires forall x :: x in cands <==> x in rules.open(current, mark)
      ensures forall k :: 0 <= k < |cands| ==> cands[k] in rules.open(current, mark)
      ensures Settled(current, mark, cands, 0, rules.flip(mark)) == GameValue(rules, size, current, mark)
    {
      var open := rules.open(current, mark);
      SameMoves(current, mark, cands, open, mark);
      SameMoves(current, mark, cands, open, Empty);
    }

    /** Two lists with the same open positions have a move of a given value alike. */
    lemma SameMoves(current: S, mark: Mark, a: seq<nat>, b: seq<nat>, value: Mark)
      requires Decreasing(rules, size)
      requires forall x :: x in a <==> x in b
      requires forall k :: 0 <= k < |b| ==> b[k] in rules.open(current, mark)
      ensures forall k :: 0 <= k < |a| ==> a[k] in rules.open(current, mark)
      ensures (exists j :: 0 <= j < |a| && MoveValue(rules, size, current, mark, a[j]) == value) <==>
              (exists k :: 0 <= k < |b| && MoveValue(rules, size, current, mark, b[k]) == value)
    {
      forall j | 0 <= j < |a| ensures a[j] in rules.open(current, mark) {
        assert a[j] in b;
      }
      if exists j :: 0 <= j < |a| && MoveValue(rules, size, current, mark, a[j]) == value {
        var j :| 0 <= j < |a| && MoveValue(rules, size, current, mark, a[j]) == value;
        assert a[j] in b;
        var k :| 0 <= k < |b| && b[k] == a[j];
      }
      if exists k :: 0 <= k < |b| && MoveValue(rules, size, current, mark, b[k]) == value {
        var k :| 0 <= k < |b| && MoveValue(rules, size, current, mark, b[k]) == value;
        assert b[k] in a;
        var j :| 0 <= j < |a| && a[j] == b[k];
      }
    }

    /** What the scan from index i decides with `current_best` equal to best, in terms of the values of the remaining moves. */
    ghost function Settled(current: S, mark: Mark, cands: seq<nat>, i: nat, best: Mark): Mark
      requires Decreasing(rules, size)
      requires forall k :: 0 <= k < |cands| ==> cands[k] in rules.open(current, mark)
    {
      if exists j :: i <= j < |cands| && MoveValue(rules, size, current, mark, cands[j]) == mark then mark
      else if best == Empty || exists j :: i <= j < |cands| && MoveValue(rules, size, current, mark, cands[j]) == Empty then Empty
      else rules.flip(mark)
    }

    lemma {:induction false} ScanExact(current: S, mark: Mark, parent: Mark, cands: seq<nat>, i: nat, best: Mark)
      requires Decreasing(rules, size) && Swaps(rules) && Quiet(view, state) && mark != Empty
      requires forall k :: 0 <= k < |cands| ==> cands[k] in rules.open(current, mark)
      requires best in {rules.flip(mark), Empty} && (parent == Empty ==> best != Empty)
      ensures parent != Empty ==> Scan(current, mark, parent, cands, i, best) == Settled(current, mark, cands, i, best)
      ensures parent == Empty && Scan(current, mark, parent, cands, i, best) == Empty ==>
        Settled(current, mark, cands, i, best) in {Empty, mark}
      ensures parent == Empty && Scan(current, mark, parent, cands, i, best) != Empty ==>
        Scan(current, mark, parent, cands, i, best) == Settled(current, mark, cands, i, best)
      decreases size(current), 0, |cands| - i
    {
      if i < |cands| {
        var p := cands[i];
        var (next, won) := rules.play(current, p, mark);
        if !won {
          var child := Value(next, rules.flip(mark), best);
          ValueExact(next, rules.flip(mark), best);
          var moveValue := MoveValue(rules, size, current, mark, p);
          assert moveValue == GameValue(rules, size, next, rules.flip(mark));
          if child != mark && !(child == Empty && parent == Empty) {
            var best' := if child == Empty then Empty else best;
            ScanExact(current, mark, parent, cands, i + 1, best');
            assert moveValue != mark;
            assert Settled(current, mark, cands, i, best) == Settled(current, mark, cands, i + 1, best');
          }
        }
      }
    }

    /**
     * Solving from an empty board of a game with lines of at least three
     * cells: the forcing chain reads the member state, never fires, and
     * the result is the value of the game.
     */
    lemma EmptyBoardExact(current: S, mark: Mark)
      requires Decreasing(rules, size) && Swaps(rules) && mark != Empty && view.n >= 3
      requires forall m, i :: 0 <= i < |view.current(state, m)| ==> view.current(state, m)[i] == 0
      requires forall m, i :: 0 <= i < |view.opponent(state, m)| ==> view.opponent(state, m)[i] == 0
      ensures Value(current, mark, rules.flip(mark)) == GameValue(rules, size, current, mark)
    {
      forall m, o ensures ForcingChain(view)(state, m, o).None? {
        ForcingChainQuiet(view, state, m, o);
      }
      ValueExact(current, mark, rules.flip(mark));
    }
  }
}
