/**
 * The symmetry trie of boarddata.hh, `SymmeTrie<N, D>`: a breadth-first
 * graph whose nodes carry a list of "similar" entries, one outgoing edge per
 * board position, and one orbit mask per position.
 *
 * The root lists every symmetry. The child of a node along position i lists
 * the entries j of the node's list whose symmetry `symmetries[current[j]]`
 * fixes i. As written, the child records the local index j rather than the
 * symmetry number `current[j]`; `LocalChild` models that, and
 * `StabilizerChild` is the rule with symmetry numbers; `AsWrittenLosesSymmetries`
 * shows where the two part.
 * A node is created only for a list that no existing node has.
 *
 * A bitset<board_size> mask is modelled as the set of its positions that
 * are set.
 */
module SymmetryTrie {
  import opened Permutations
  import opened BoardGeometry
  import opened BoardSymmetry

  /** `Node`: its list, its next node per position, its mask per position. */
  datatype Node = Node(similar: seq<nat>, next: seq<nat>, mask: seq<set<nat>>)

  /** `Node(similar)`: every edge at node 0 and every mask empty. */
  function FreshNode(similar: seq<nat>, b: nat): (r: Node)
    ensures r.similar == similar && |r.next| == b && |r.mask| == b
    ensures forall p :: 0 <= p < b ==> r.next[p] == 0 && r.mask[p] == {}
  {
    Node(similar, seq(b, _ => 0), seq(b, _ => {}))
  }

  /** Every row of syms is a table of b positions. */
  predicate TablesOf(syms: seq<seq<nat>>, b: nat)
  {
    forall s :: 0 <= s < |syms| ==> Table(syms[s], b)
  }

  /** Symmetry number s maps position i to itself. */
  predicate Fixes(syms: seq<seq<nat>>, s: nat, i: nat)
  {
    s < |syms| && i < |syms[s]| && syms[s][i] == i
  }

  /** Strictly increasing, every entry below bound. */
  predicate Increasing(l: seq<nat>, bound: nat)
  {
    (forall k :: 0 <= k < |l| ==> l[k] < bound) &&
    (forall j, k :: 0 <= j < k < |l| ==> l[j] < l[k])
  }

  /**
   * The child list as `construct_trie` builds it from the first m entries of
   * current: the local indices j whose symmetry current[j] fixes i.
   */
  function LocalChild(syms: seq<seq<nat>>, current: seq<nat>, i: nat, m: nat): seq<nat>
    requires m <= |current|
  {
    if m == 0 then []
    else LocalChild(syms, current, i, m - 1) + (if Fixes(syms, current[m - 1], i) then [m - 1] else [])
  }

  /** The child list with symmetry numbers: the entries of current that fix i. */
  function StabilizerChild(syms: seq<seq<nat>>, current: seq<nat>, i: nat, m: nat): seq<nat>
    requires m <= |current|
  {
    if m == 0 then []
    else StabilizerChild(syms, current, i, m - 1) + (if Fixes(syms, current[m - 1], i) then [current[m - 1]] else [])
  }

  /** The positions a list's symmetries send pos to: `construct_mask` for one position. */
  function MaskOf(syms: seq<seq<nat>>, l: seq<nat>, pos: nat): set<nat>
    requires forall k :: 0 <= k < |l| ==> l[k] < |syms| && pos < |syms[l[k]]|
  {
    if l == [] then {} else MaskOf(syms, l[..|l| - 1], pos) + {syms[l[|l| - 1]][pos]}
  }

  /** The list of the node reached from the root along path, as written. */
  function LocalPath(syms: seq<seq<nat>>, path: seq<nat>): seq<nat>
  {
    if path == [] then Range(|syms|)
    else
      var l := LocalPath(syms, path[..|path| - 1]);
      LocalChild(syms, l, path[|path| - 1], |l|)
  }

  /** The list of the node reached from the root along path, with symmetry numbers. */
  function StabilizerPath(syms: seq<seq<nat>>, path: seq<nat>): seq<nat>
  {
    if path == [] then Range(|syms|)
    else
      var l := StabilizerPath(syms, path[..|path| - 1]);
      StabilizerChild(syms, l, path[|path| - 1], |l|)
  }

  // ----- the child rules -----

  /** Appending an entry above every entry keeps a list increasing. */
  lemma IncreasingSnoc(l: seq<nat>, x: nat, bound: nat)
    requires Increasing(l, x) && x < bound
    ensures Increasing(l + [x], bound)
  {
  }

  lemma IncreasingWeaken(l: seq<nat>, lower: nat, bound: nat)
    requires Increasing(l, lower) && lower <= bound
    ensures Increasing(l, bound)
  {
  }

  /** The local child lists exactly the indices j < m whose symmetry fixes i, in order. */
  lemma {:induction false} LocalChildMeaning(syms: seq<seq<nat>>, current: seq<nat>, i: nat, m: nat)
    requires m <= |current|
    ensures |LocalChild(syms, current, i, m)| <= m && Increasing(LocalChild(syms, current, i, m), m)
    ensures forall j: nat :: j in LocalChild(syms, current, i, m) <==> j < m && Fixes(syms, current[j], i)
  {
    if m > 0 {
      LocalChildMeaning(syms, current, i, m - 1);
      var l := LocalChild(syms, current, i, m - 1);
      if Fixes(syms, current[m - 1], i) {
        IncreasingSnoc(l, m - 1, m);
      } else {
        assert LocalChild(syms, current, i, m) == l + [];
        IncreasingWeaken(l, m - 1, m);
      }
    }
  }

  /** The stabilizer child lists exactly the entries of current[..m] that fix i, in order. */
  lemma {:induction false} StabilizerChildMeaning(syms: seq<seq<nat>>, current: seq<nat>, i: nat, m: nat, bound: nat)
    requires m <= |current| && Increasing(current, bound)
    ensures |StabilizerChild(syms, current, i, m)| <= m
    ensures Increasing(StabilizerChild(syms, current, i, m), if m == 0 then 0 else current[m - 1] + 1)
    ensures forall x: nat :: x in StabilizerChild(syms, current, i, m) <==> x in current[..m] && Fixes(syms, x, i)
  {
    if m > 0 {
      StabilizerChildMeaning(syms, current, i, m - 1, bound);
      var l := StabilizerChild(syms, current, i, m - 1);
      assert current[..m] == current[..m - 1] + [current[m - 1]];
      assert Increasing(l, current[m - 1]) by {
        if m > 1 {
          assert current[m - 2] < current[m - 1];
          IncreasingWeaken(l, current[m - 2] + 1, current[m - 1]);
        }
      }
      if Fixes(syms, current[m - 1], i) {
        IncreasingSnoc(l, current[m - 1], current[m - 1] + 1);
      } else {
        assert StabilizerChild(syms, current, i, m) == l + [];
        IncreasingWeaken(l, current[m - 1], current[m - 1] + 1);
      }
    }
  }

  /**
   * The corrected trie's property: the node reached along a path of positions
   * lists exactly the symmetries that fix every one of them, in increasing order.
   */
  lemma {:induction false} StabilizerPathMeaning(syms: seq<seq<nat>>, path: seq<nat>)
    ensures Increasing(StabilizerPath(syms, path), |syms|)
    ensures forall x: nat :: x in StabilizerPath(syms, path) <==>
      x < |syms| && forall k :: 0 <= k < |path| ==> Fixes(syms, x, path[k])
  {
    if path != [] {
      var init := path[..|path| - 1];
      var l := StabilizerPath(syms, init);
      StabilizerPathMeaning(syms, init);
      var last := path[|path| - 1];
      StabilizerChildMeaning(syms, l, last, |l|, |syms|);
      IncreasingWeaken(StabilizerChild(syms, l, last, |l|), if |l| == 0 then 0 else l[|l| - 1] + 1, |syms|);
      assert l[..|l|] == l;
      forall x: nat ensures x in StabilizerPath(syms, path) <==>
        x < |syms| && forall k :: 0 <= k < |path| ==> Fixes(syms, x, path[k])
      {
        if x < |syms| && forall k :: 0 <= k < |path| ==> Fixes(syms, x, path[k]) {
          forall k | 0 <= k < |init| ensures Fixes(syms, x, init[k]) {
            assert init[k] == path[k];
          }
        }
      }
    } else {
      var r := Range(|syms|);
      forall x: nat ensures x in r <==> x < |syms| {
        if x < |syms| { assert r[x] == x; }
      }
    }
  }

  /** A mask holds exactly the images of pos under the list's symmetries. */
  lemma {:induction false} MaskMembers(syms: seq<seq<nat>>, l: seq<nat>, pos: nat)
    requires forall k :: 0 <= k < |l| ==> l[k] < |syms| && pos < |syms[l[k]]|
    ensures forall q :: q in MaskOf(syms, l, pos) <==> exists k :: 0 <= k < |l| && syms[l[k]][pos] == q
  {
    if l != [] {
      var init := l[..|l| - 1];
      MaskMembers(syms, init, pos);
      forall q ensures q in MaskOf(syms, l, pos) <==> exists k :: 0 <= k < |l| && syms[l[k]][pos] == q {
        if q in MaskOf(syms, init, pos) {
          var k :| 0 <= k < |init| && syms[init[k]][pos] == q;
          assert l[k] == init[k];
        }
        if exists k :: 0 <= k < |l| && syms[l[k]][pos] == q {
          var k :| 0 <= k < |l| && syms[l[k]][pos] == q;
          if k < |init| {
            assert init[k] == l[k];
          }
        }
      }
    }
  }

  /**
   * The corrected trie's masks: along a path, the mask at pos is the orbit of
   * pos under the symmetries that fix every position of the path.
   */
  lemma StabilizerPathMask(syms: seq<seq<nat>>, path: seq<nat>, pos: nat, b: nat)
    requires TablesOf(syms, b) && pos < b
    ensures forall k :: 0 <= k < |StabilizerPath(syms, path)| ==>
      StabilizerPath(syms, path)[k] < |syms| && pos < |syms[StabilizerPath(syms, path)[k]]|
    ensures forall q :: q in MaskOf(syms, StabilizerPath(syms, path), pos) <==>
      exists s :: 0 <= s < |syms| && (forall k :: 0 <= k < |path| ==> Fixes(syms, s, path[k])) && syms[s][pos] == q
  {
    var l := StabilizerPath(syms, path);
    StabilizerPathMeaning(syms, path);
    MaskMembers(syms, l, pos);
    forall q ensures q in MaskOf(syms, l, pos) <==>
      exists s :: 0 <= s < |syms| && (forall k :: 0 <= k < |path| ==> Fixes(syms, s, path[k])) && syms[s][pos] == q
    {
      if exists s :: 0 <= s < |syms| && (forall k :: 0 <= k < |path| ==> Fixes(syms, s, path[k])) && syms[s][pos] == q {
        var s :| 0 <= s < |syms| && (forall k :: 0 <= k < |path| ==> Fixes(syms, s, path[k])) && syms[s][pos] == q;
        assert s in l;
        var k :| 0 <= k < |l| && l[k] == s;
      }
      if q in MaskOf(syms, l, pos) {
        var k :| 0 <= k < |l| && syms[l[k]][pos] == q;
        assert l[k] in l;
      }
    }
  }

  /** Where entry k of the list is symmetry k, the two child rules build the same list. */
  lemma {:induction false} ChildrenAgreeOnIdentity(syms: seq<seq<nat>>, current: seq<nat>, i: nat, m: nat)
    requires m <= |current| && forall k :: 0 <= k < m ==> current[k] == k
    ensures LocalChild(syms, current, i, m) == StabilizerChild(syms, current, i, m)
  {
    if m > 0 {
      ChildrenAgreeOnIdentity(syms, current, i, m - 1);
    }
  }

  /** The root lists every symmetry by its number, so one step from it is the same under both rules. */
  lemma FirstStepAgrees(syms: seq<seq<nat>>, i: nat)
    ensures LocalPath(syms, [i]) == StabilizerPath(syms, [i])
  {
    assert [i][..0] == [];
    ChildrenAgreeOnIdentity(syms, Range(|syms|), i, |syms|);
  }

  /** All six permutations of three cells, sorted: the symmetries of the N = 3, D = 1 board. */
  function ThreeCells(): seq<seq<nat>>
  {
    [[0, 1, 2], [0, 2, 1], [1, 0, 2], [1, 2, 0], [2, 0, 1], [2, 1, 0]]
  }

  /**
   * As written, two steps along position 1 on three cells reach the list
   * [0, 1], read by `construct_mask` as the identity and the swap of cells 1
   * and 2; the symmetries that fix cell 1 are numbers 0 and 5, and their
   * orbit of cell 0 is {0, 2}, not the {0} the as-written mask holds.
   */
  lemma AsWrittenLosesSymmetries()
    ensures LocalPath(ThreeCells(), [1, 1]) == [0, 1]
    ensures StabilizerPath(ThreeCells(), [1, 1]) == [0, 5]
    ensures MaskOf(ThreeCells(), LocalPath(ThreeCells(), [1, 1]), 0) == {0}
    ensures MaskOf(ThreeCells(), StabilizerPath(ThreeCells(), [1, 1]), 0) == {0, 2}
  {
    var syms := ThreeCells();
    ThreeCellsFirstStep();
    assert [1, 1][..1] == [1] && [1][..0] == [];
    assert LocalPath(syms, [1]) == [0, 5];
    assert StabilizerPath(syms, [1]) == [0, 5];
    assert Fixes(syms, 0, 1) && Fixes(syms, 5, 1);
    assert LocalChild(syms, [0, 5], 1, 1) == [0];
    assert LocalChild(syms, [0, 5], 1, 2) == [0, 1];
    assert StabilizerChild(syms, [0, 5], 1, 1) == [0];
    assert StabilizerChild(syms, [0, 5], 1, 2) == [0, 5];
    assert [0, 1][..1] == [0] && [0, 5][..1] == [0] && [0][..0] == [];
    assert MaskOf(syms, [0], 0) == {0};
  }

  /** On three cells, the symmetries that fix cell 1 are numbers 0 and 5. */
  lemma ThreeCellsFirstStep()
    ensures LocalChild(ThreeCells(), Range(6), 1, 6) == [0, 5]
    ensures StabilizerChild(ThreeCells(), Range(6), 1, 6) == [0, 5]
  {
    var syms, root := ThreeCells(), Range(6);
    assert root == [0, 1, 2, 3, 4, 5];
    assert Fixes(syms, 0, 1) && !Fixes(syms, 1, 1) && !Fixes(syms, 2, 1);
    assert !Fixes(syms, 3, 1) && !Fixes(syms, 4, 1) && Fixes(syms, 5, 1);
    assert LocalChild(syms, root, 1, 1) == [0] && StabilizerChild(syms, root, 1, 1) == [0];
    assert LocalChild(syms, root, 1, 2) == [0] && StabilizerChild(syms, root, 1, 2) == [0];
    assert LocalChild(syms, root, 1, 3) == [0] && StabilizerChild(syms, root, 1, 3) == [0];
    assert LocalChild(syms, root, 1, 4) == [0] && StabilizerChild(syms, root, 1, 4) == [0];
    assert LocalChild(syms, root, 1, 5) == [0] && StabilizerChild(syms, root, 1, 5) == [0];
  }

  // ----- all increasing lists, for the termination of the breadth-first pass -----

  /** Every strictly increasing list with entries below bound. */
  ghost function AllIncreasing(bound: nat): set<seq<nat>>
  {
    if bound == 0 then {[]}
    else
      var p := AllIncreasing(bound - 1);
      p + set l | l in p :: l + [bound - 1]
  }

  lemma {:induction false} IncreasingListed(l: seq<nat>, bound: nat)
    requires Increasing(l, bound)
    ensures l in AllIncreasing(bound)
  {
    if bound > 0 {
      if l != [] && l[|l| - 1] == bound - 1 {
        var init := l[..|l| - 1];
        assert Increasing(init, bound - 1) by {
          forall k | 0 <= k < |init| ensures init[k] < bound - 1 {
            assert l[k] < l[|l| - 1];
          }
        }
        IncreasingListed(init, bound - 1);
        assert l == init + [bound - 1];
      } else {
        assert Increasing(l, bound - 1) by {
          forall k | 0 <= k < |l| ensures l[k] < bound - 1 {
            if k < |l| - 1 { assert l[k] < l[|l| - 1]; }
          }
        }
        IncreasingListed(l, bound - 1);
      }
    }
  }

  /** The lists the nodes carry. */
  ghost function Lists(ns: seq<Node>): set<seq<nat>>
  {
    set k | 0 <= k < |ns| :: ns[k].similar
  }

  /** ns with node c's edge at position i set to v: `nodes[c].next[i] = v`. */
  function SetNext(ns: seq<Node>, c: nat, i: nat, v: nat): (r: seq<Node>)
    requires c < |ns| && i < |ns[c].next|
    ensures |r| == |ns| && r[c].next == ns[c].next[i := v]
    ensures forall k :: 0 <= k < |r| ==> r[k].similar == ns[k].similar && r[k].mask == ns[k].mask
    ensures forall k :: 0 <= k < |r| && k != c ==> r[k] == ns[k]
  {
    ns[c := ns[c].(next := ns[c].next[i := v])]
  }

  /** ns with node c's mask at position pos set to bits. */
  function SetMask(ns: seq<Node>, c: nat, pos: nat, bits: set<nat>): (r: seq<Node>)
    requires c < |ns| && pos < |ns[c].mask|
    ensures |r| == |ns| && r[c].mask == ns[c].mask[pos := bits]
    ensures forall k :: 0 <= k < |r| ==> r[k].similar == ns[k].similar && r[k].next == ns[k].next
    ensures forall k :: 0 <= k < |r| && k != c ==> r[k] == ns[k]
  {
    ns[c := ns[c].(mask := ns[c].mask[pos := bits])]
  }

  lemma ListsSetNext(ns: seq<Node>, c: nat, i: nat, v: nat)
    requires c < |ns| && i < |ns[c].next|
    ensures Lists(SetNext(ns, c, i, v)) == Lists(ns)
  {
    var r := SetNext(ns, c, i, v);
    forall l | l in Lists(ns) ensures l in Lists(r) {
      var k :| 0 <= k < |ns| && ns[k].similar == l;
      assert r[k].similar == l;
    }
  }

  lemma ListsSnoc(ns: seq<Node>, n: Node)
    ensures Lists(ns + [n]) == Lists(ns) + {n.similar}
  {
    var r := ns + [n];
    forall l | l in Lists(r) ensures l in Lists(ns) + {n.similar} {
      var k :| 0 <= k < |r| && r[k].similar == l;
      if k < |ns| { assert ns[k].similar == l; }
    }
    forall l | l in Lists(ns) ensures l in Lists(r) {
      var k :| 0 <= k < |ns| && ns[k].similar == l;
      assert r[k].similar == l;
    }
    assert r[|ns|].similar == n.similar;
  }

  /** The queue of the breadth-first pass holds the node numbers from, …, to - 1. */
  predicate Queue(pool: seq<nat>, from: nat, to: nat)
  {
    from <= to && |pool| == to - from && forall k :: 0 <= k < |pool| ==> pool[k] == from + k
  }

  /** The symmetries of a built `Symmetry` are tables of its board. */
  lemma SymmetryTables(sym: Symmetry)
    requires sym.Valid()
    ensures TablesOf(sym.symmetries, sym.geom.boardSize)
  {
    var b := sym.geom.boardSize;
    assert sym.eviscerations[0] in sym.eviscerations;
    BijectionsAreTables(sym.rotations, b);
    ProductFacts(b, sym.rotations, sym.eviscerations, sym.symmetries);
    forall s | 0 <= s < |sym.symmetries| ensures Table(sym.symmetries[s], b) {
      assert sym.symmetries[s] in sym.symmetries;
    }
  }

  /** `SymmeTrie<N, D>`: built once from the symmetries of a board. */
  class SymmeTrie {
    /** `sym.symmetries()`. */
    const syms: seq<seq<nat>>
    const boardSize: nat
    /** `nodes`. */
    var nodes: seq<Node>

    /** The child list of l along position i, as `construct_trie` builds it. */
    function Child(l: seq<nat>, i: nat): seq<nat>
    {
      LocalChild(syms, l, i, |l|)
    }

    /** Node k's edge at position p leads to a node, and that node carries the child list. */
    ghost predicate Edge(ns: seq<Node>, k: nat, p: nat)
    {
      k < |ns| && p < |ns[k].next| && ns[k].next[p] < |ns| &&
      ns[ns[k].next[p]].similar == Child(ns[k].similar, p)
    }

    /** Every node has an edge and a mask per position, and an increasing list of symmetry numbers. */
    ghost predicate Shaped(ns: seq<Node>)
    {
      forall k :: 0 <= k < |ns| ==>
        |ns[k].next| == boardSize && |ns[k].mask| == boardSize &&
        |ns[k].similar| <= |syms| && Increasing(ns[k].similar, |syms|)
    }

    /** No two nodes carry the same list. */
    ghost predicate Distinct(ns: seq<Node>)
    {
      forall a, b :: 0 <= a < b < |ns| ==> ns[a].similar != ns[b].similar
    }

    /** Nodes 0 .. done - 1 have all their edges. */
    ghost predicate Done(ns: seq<Node>, done: nat)
    {
      forall k, p :: 0 <= k < done && 0 <= p < boardSize ==> Edge(ns, k, p)
    }

    /** Node c has its edges at positions 0 .. i - 1. */
    ghost predicate Partial(ns: seq<Node>, c: nat, i: nat)
    {
      forall p :: 0 <= p < i ==> Edge(ns, c, p)
    }

    /** Every list not yet carried by a node. */
    ghost function Unseen(ns: seq<Node>): set<seq<nat>>
    {
      AllIncreasing(|syms|) - Lists(ns)
    }

    /** The graph `construct_trie` leaves behind. */
    ghost predicate TrieBuilt(ns: seq<Node>)
    {
      Shaped(ns) && Distinct(ns) && |ns| >= 1 && ns[0].similar == Range(|syms|) && Done(ns, |ns|)
    }

    /** Every mask is the orbit of its position under the node's list, as `construct_mask` sets it. */
    ghost predicate Masked(ns: seq<Node>)
      requires Shaped(ns) && TablesOf(syms, boardSize)
    {
      forall k, pos :: 0 <= k < |ns| && 0 <= pos < boardSize ==>
        ns[k].mask[pos] == MaskOf(syms, ns[k].similar, pos)
    }

    /** The state the constructor leaves behind. */
    ghost predicate Valid()
      reads this
    {
      TablesOf(syms, boardSize) && TrieBuilt(nodes) && Masked(nodes)
    }

    constructor (sym: Symmetry)
      requires sym.Valid()
      ensures syms == sym.symmetries && boardSize == sym.geom.boardSize && Valid()
    {
      syms := sym.symmetries;
      boardSize := sym.geom.boardSize;
      nodes := [];
      new;
      SymmetryTables(sym);
      ConstructTrie();
      ConstructMask();
    }

    /** `similar(line)`. */
    function Similar(line: nat): (r: seq<nat>)
      reads this
      requires Valid() && line < |nodes|
      ensures Increasing(r, |syms|) && (line == 0 ==> r == Range(|syms|))
      ensures forall other :: 0 <= other < |nodes| && other != line ==> nodes[other].similar != r
    {
      nodes[line].similar
    }

    /** `next(line, pos)`. */
    function Next(line: nat, pos: nat): (r: nat)
      reads this
      requires Valid() && line < |nodes| && pos < boardSize
      ensures r < |nodes| && nodes[r].similar == Child(nodes[line].similar, pos)
    {
      assert Edge(nodes, line, pos);
      nodes[line].next[pos]
    }

    /** `mask(line, pos)`. */
    function Mask(line: nat, pos: nat): (r: set<nat>)
      reads this
      requires Valid() && line < |nodes| && pos < boardSize
      ensures forall q :: q in r ==> q < boardSize
      ensures forall q :: q in r <==>
        exists k :: 0 <= k < |nodes[line].similar| && syms[nodes[line].similar[k]][pos] == q
    {
      var l := nodes[line].similar;
      MaskMembers(syms, l, pos);
      forall q | q in nodes[line].mask[pos] ensures q < boardSize {
        var k :| 0 <= k < |l| && syms[l[k]][pos] == q;
        assert Table(syms[l[k]], boardSize);
      }
      nodes[line].mask[pos]
    }

    /** The node reached from the root by following the edges along path. */
    ghost function Walk(path: seq<nat>): (r: nat)
      reads this
      requires Valid() && forall k :: 0 <= k < |path| ==> path[k] < boardSize
      ensures r < |nodes|
    {
      if path == [] then 0 else Next(Walk(path[..|path| - 1]), path[|path| - 1])
    }

    /** The walk along a path reaches the node carrying the as-written path list. */
    lemma {:induction false} WalkList(path: seq<nat>)
      requires Valid() && forall k :: 0 <= k < |path| ==> path[k] < boardSize
      ensures nodes[Walk(path)].similar == LocalPath(syms, path)
    {
      if path != [] {
        WalkList(path[..|path| - 1]);
      }
    }

    /** The child list of symmetry numbers in current along position i: the inner loop over j. */
    method ChildList(current: seq<nat>, i: nat) returns (nextSimilar: seq<nat>)
      requires TablesOf(syms, boardSize) && Increasing(current, |syms|) && i < boardSize
      ensures nextSimilar == Child(current, i)
    {
      nextSimilar := [];
      var j := 0;
      while j < |current|
        invariant 0 <= j <= |current| && nextSimilar == LocalChild(syms, current, i, j)
      {
        assert Table(syms[current[j]], boardSize);
        if i == syms[current[j]][i] {
          nextSimilar := nextSimilar + [j];
        }
        j := j + 1;
      }
    }

    /** `find_if` over nodes: the first node carrying l, or |nodes| when none does. */
    method FindNode(l: seq<nat>) returns (found: nat)
      ensures found <= |nodes| && (found < |nodes| ==> nodes[found].similar == l)
      ensures forall k :: 0 <= k < found ==> nodes[k].similar != l
    {
      found := 0;
      while found < |nodes| && nodes[found].similar != l
        invariant found <= |nodes|
        invariant forall k :: 0 <= k < found ==> nodes[k].similar != l
      {
        found := found + 1;
      }
    }

    /** The edges of nodes already in place keep their meaning when nodes grows and one new edge is set. */
    lemma EdgesKept(before: seq<Node>, after: seq<Node>, c: nat, i: nat)
      requires c < |before| <= |after| && i < boardSize
      requires forall k :: 0 <= k < |before| ==> after[k].similar == before[k].similar
      requires forall k :: 0 <= k < |before| && k != c ==> after[k].next == before[k].next
      requires |before[c].next| == boardSize && |after[c].next| == boardSize
      requires forall p :: 0 <= p < boardSize && p != i ==> after[c].next[p] == before[c].next[p]
      requires Done(before, c) && Partial(before, c, i) && Edge(after, c, i)
      ensures Done(after, c) && Partial(after, c, i + 1)
    {
      forall k, p | 0 <= k < c && 0 <= p < boardSize ensures Edge(after, k, p) {
        assert Edge(before, k, p);
      }
      forall p | 0 <= p < i ensures Edge(after, c, p) {
        assert Edge(before, c, p);
      }
    }

    /** `nodes.push_back(Node(l))` for a list no node carries yet. */
    method AddNode(l: seq<nat>) returns (lastNode: nat)
      requires Shaped(nodes) && Distinct(nodes) && |l| <= |syms| && Increasing(l, |syms|)
      requires forall k :: 0 <= k < |nodes| ==> nodes[k].similar != l
      modifies this`nodes
      ensures nodes == old(nodes) + [FreshNode(l, boardSize)] && lastNode == |old(nodes)|
      ensures Shaped(nodes) && Distinct(nodes) && Unseen(nodes) < Unseen(old(nodes))
    {
      var added := FreshNode(l, boardSize);
      ListsSnoc(nodes, added);
      IncreasingListed(l, |syms|);
      assert l !in Lists(nodes);
      nodes := nodes + [added];
      lastNode := |nodes| - 1;
    }

    /** `nodes[c].next[i] = target`. */
    method SetEdge(c: nat, i: nat, target: nat)
      requires Shaped(nodes) && Distinct(nodes) && c < |nodes| && i < boardSize
      modifies this`nodes
      ensures nodes == SetNext(old(nodes), c, i, target)
      ensures Shaped(nodes) && Distinct(nodes) && Unseen(nodes) == Unseen(old(nodes))
    {
      ListsSetNext(nodes, c, i, target);
      nodes := SetNext(nodes, c, i, target);
    }

    /** One round of the loop over positions: the child along i, found or added and queued. */
    method Expand(c: nat, current: seq<nat>, i: nat, pool: seq<nat>) returns (pool': seq<nat>)
      requires TablesOf(syms, boardSize) && Shaped(nodes) && Distinct(nodes)
      requires c < |nodes| && nodes[c].similar == current && i < boardSize
      requires Queue(pool, c + 1, |nodes|) && Done(nodes, c) && Partial(nodes, c, i)
      modifies this`nodes
      ensures Shaped(nodes) && Distinct(nodes) && Queue(pool', c + 1, |nodes|)
      ensures Done(nodes, c) && Partial(nodes, c, i + 1)
      ensures |old(nodes)| <= |nodes| && forall k :: 0 <= k < |old(nodes)| ==> nodes[k].similar == old(nodes)[k].similar
      ensures Unseen(nodes) <= Unseen(old(nodes))
      ensures Unseen(nodes) == Unseen(old(nodes)) ==> |pool'| == |pool|
    {
      var nextSimilar := ChildList(current, i);
      LocalChildMeaning(syms, current, i, |current|);
      IncreasingWeaken(nextSimilar, |current|, |syms|);
      var found := FindNode(nextSimilar);
      ghost var before := nodes;
      if found == |nodes| {
        var lastNode := AddNode(nextSimilar);
        pool' := pool + [lastNode];
        SetEdge(c, i, lastNode);
      } else {
        SetEdge(c, i, found);
        pool' := pool;
      }
      assert Edge(nodes, c, i);
      EdgesKept(before, nodes, c, i);
    }

    /** `construct_trie`: breadth-first from the root that lists every symmetry. */
    method ConstructTrie()
      requires TablesOf(syms, boardSize) && nodes == []
      modifies this`nodes
      ensures TrieBuilt(nodes)
    {
      var root := Range(|syms|);
      var pool := [0];
      nodes := [FreshNode(root, boardSize)];
      ghost var done := 0;
      while pool != []
        invariant Shaped(nodes) && Distinct(nodes) && |nodes| >= 1 && nodes[0].similar == root
        invariant Queue(pool, done, |nodes|) && Done(nodes, done)
        decreases Unseen(nodes), |pool|
      {
        var currentNode := pool[0];
        var current := nodes[currentNode].similar;
        pool := pool[1..];
        ghost var start, popped := nodes, |pool|;
        var i := 0;
        while i < boardSize
          invariant i <= boardSize
          invariant Shaped(nodes) && Distinct(nodes) && |nodes| >= 1 && nodes[0].similar == root
          invariant currentNode == done < |nodes| && nodes[done].similar == current
          invariant Queue(pool, done + 1, |nodes|) && Done(nodes, done) && Partial(nodes, done, i)
          invariant Unseen(nodes) <= Unseen(start)
          invariant Unseen(nodes) == Unseen(start) ==> |pool| == popped
        {
          pool := Expand(currentNode, current, i, pool);
          i := i + 1;
        }
        done := done + 1;
      }
    }

    /** The orbit mask of pos under the list l: the innermost loop of `construct_mask`. */
    method OrbitBits(l: seq<nat>, pos: nat) returns (bits: set<nat>)
      requires TablesOf(syms, boardSize) && Increasing(l, |syms|) && pos < boardSize
      ensures bits == MaskOf(syms, l, pos)
    {
      bits := {};
      var k := 0;
      while k < |l|
        invariant 0 <= k <= |l| && bits == MaskOf(syms, l[..k], pos)
      {
        assert Table(syms[l[k]], boardSize);
        assert l[..k + 1][..k] == l[..k];
        bits := bits + {syms[l[k]][pos]};
        k := k + 1;
      }
      assert l[..k] == l;
    }

    /** The masks of node c, position by position. */
    method MaskNode(c: nat)
      requires TablesOf(syms, boardSize) && Shaped(nodes) && c < |nodes|
      modifies this`nodes
      ensures |nodes| == |old(nodes)| && Shaped(nodes)
      ensures forall k :: 0 <= k < |nodes| ==> nodes[k].similar == old(nodes)[k].similar && nodes[k].next == old(nodes)[k].next
      ensures forall k :: 0 <= k < |nodes| && k != c ==> nodes[k].mask == old(nodes)[k].mask
      ensures forall pos :: 0 <= pos < boardSize ==> nodes[c].mask[pos] == MaskOf(syms, nodes[c].similar, pos)
    {
      var pos := 0;
      while pos < boardSize
        invariant pos <= boardSize && |nodes| == |old(nodes)| && Shaped(nodes)
        invariant forall k :: 0 <= k < |nodes| ==> nodes[k].similar == old(nodes)[k].similar && nodes[k].next == old(nodes)[k].next
        invariant forall k :: 0 <= k < |nodes| && k != c ==> nodes[k].mask == old(nodes)[k].mask
        invariant forall p :: 0 <= p < pos ==> nodes[c].mask[p] == MaskOf(syms, nodes[c].similar, p)
      {
        var bits := OrbitBits(nodes[c].similar, pos);
        nodes := SetMask(nodes, c, pos, bits);
        pos := pos + 1;
      }
    }

    /** `construct_mask`: every node's masks. */
    method ConstructMask()
      requires TablesOf(syms, boardSize) && TrieBuilt(nodes)
      modifies this`nodes
      ensures |nodes| == |old(nodes)| && TrieBuilt(nodes) && Masked(nodes)
      ensures forall k :: 0 <= k < |nodes| ==> nodes[k].similar == old(nodes)[k].similar && nodes[k].next == old(nodes)[k].next
    {
      var c := 0;
      while c < |nodes|
        invariant c <= |nodes| == |old(nodes)| && Shaped(nodes)
        invariant forall k :: 0 <= k < |nodes| ==> nodes[k].similar == old(nodes)[k].similar && nodes[k].next == old(nodes)[k].next
        invariant forall k, pos :: 0 <= k < c && 0 <= pos < boardSize ==> nodes[k].mask[pos] == MaskOf(syms, nodes[k].similar, pos)
      {
        MaskNode(c);
        c := c + 1;
      }
      assert Done(old(nodes), |nodes|);
      forall k, p | 0 <= k < |nodes| && 0 <= p < boardSize ensures Edge(nodes, k, p) {
        assert Edge(old(nodes), k, p);
      }
    }
  }
}
