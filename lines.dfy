/**
 * Winning-line generation, boarddata.hh `generate_lines` (167-201) and
 * `construct_winning_lines` (213-220); tictactoe.cc has the same recursion
 * without the sorting (51-100).
 *
 * A line is built as N cells of D coordinates ("current_line"). Dimension by
 * dimension, an `up` entry of the terrain writes 0, 1, …, N-1 down the
 * cells, a `down` entry writes N-1, …, 0, and an `equal` entry writes one
 * constant j for every j in [0, N) in turn, recursing once per j.
 */
module Lines {
  import opened Digits
  import opened Terrain
  import opened Sorting

  /** The D coordinates of one cell of a line under construction. */
  type Cell = seq<nat>

  /** N cells with D coordinates each: the shape of `current_line`. */
  predicate Shaped(cur: seq<Cell>, n: nat, d: nat)
  {
    |cur| == n && forall i :: 0 <= i < |cur| ==> |cur[i]| == d
  }

  /** `current_line` as `construct_winning_lines` creates it: N cells at the origin. */
  function Origin(n: nat, d: nat): (r: seq<Cell>)
    ensures Shaped(r, n, d)
  {
    seq(n, i => seq(d, k => 0))
  }

  /** The coordinate the switch in `generate_lines` writes into cell i. */
  function ColumnValue(n: nat, dir: Direction, j: nat, i: nat): nat
  {
    match dir
    case Up => i
    case Down => if i < n then n - i - 1 else 0
    case Equal => j
  }

  /** Coordinate `dim` of every cell i set to ColumnValue(n, dir, j, i). */
  function SetColumn(cur: seq<Cell>, dim: nat, n: nat, dir: Direction, j: nat): (r: seq<Cell>)
    ensures |r| == |cur|
  {
    seq(|cur|, i requires 0 <= i < |cur| =>
      if dim < |cur[i]| then cur[i][dim := ColumnValue(n, dir, j, i)] else cur[i])
  }

  /** Writing a column ignores what the column held before. */
  lemma SetColumnOverwrite(n: nat, d: nat, cur: seq<Cell>, cl: seq<Cell>, dim: nat, dir: Direction, j: nat)
    requires Shaped(cur, n, d) && Shaped(cl, n, d) && dim < d
    requires forall i, k :: 0 <= i < n && 0 <= k < d && k != dim ==> cl[i][k] == cur[i][k]
    ensures SetColumn(cl, dim, n, dir, j) == SetColumn(cur, dim, n, dir, j)
  {
    var a, b := SetColumn(cl, dim, n, dir, j), SetColumn(cur, dim, n, dir, j);
    forall i | 0 <= i < n ensures a[i] == b[i] {
      assert |a[i]| == |b[i]| == d;
      forall k | 0 <= k < d ensures a[i][k] == b[i][k] {
      }
    }
  }

  /**
   * One round of the column loops in `generate_lines`: cell i gets
   * coordinate `dim` set to i (up), N-i-1 (down) or j (equal).
   */
  method WriteColumn(n: nat, d: nat, cur: seq<Cell>, dim: nat, dir: Direction, j: nat) returns (r: seq<Cell>)
    requires Shaped(cur, n, d) && dim < d
    ensures r == SetColumn(cur, dim, n, dir, j)
    ensures Shaped(r, n, d)
  {
    r := cur;
    var i: nat := 0;
    while i < n
      invariant 0 <= i <= n && |r| == n
      invariant forall k :: 0 <= k < i ==> r[k] == cur[k][dim := ColumnValue(n, dir, j, k)]
      invariant forall k :: i <= k < n ==> r[k] == cur[k]
    {
      var v: nat := match dir case Up => i case Down => n - i - 1 case Equal => j;
      var row: Cell := r[i][dim := v];
      r := r[i := row];
      i := i + 1;
    }
  }

  /** The encoded positions of the cells, in cell order. */
  function EncodeCells(n: nat, cur: seq<Cell>): (r: seq<nat>)
    ensures |r| == |cur|
  {
    seq(|cur|, i requires 0 <= i < |cur| => Encode(n, cur[i]))
  }

  /**
   * The line pushed at the leaf: the cells encoded, then sorted when
   * `sorted` holds (boarddata.hh) and left in cell order otherwise (tictactoe.cc).
   */
  function Leaf(n: nat, cur: seq<Cell>, sorted: bool): seq<nat>
  {
    if sorted then Sort<nat>(EncodeCells(n, cur), NatLe) else EncodeCells(n, cur)
  }

  /** The lines `generate_lines(terrain, cur, dim)` appends, in order. */
  function Gen(n: nat, t: Terrain, cur: seq<Cell>, dim: nat, sorted: bool): seq<seq<nat>>
    requires dim <= |t|
    decreases |t| - dim, n + 1
  {
    if dim == |t| then [Leaf(n, cur, sorted)]
    else match t[dim]
      case Up => Gen(n, t, SetColumn(cur, dim, n, Up, 0), dim + 1, sorted)
      case Down => Gen(n, t, SetColumn(cur, dim, n, Down, 0), dim + 1, sorted)
      case Equal => Sweep(n, t, cur, dim, n, sorted)
  }

  /** The `equal` branch after its first j rounds: constants 0 .. j-1. */
  function Sweep(n: nat, t: Terrain, cur: seq<Cell>, dim: nat, j: nat, sorted: bool): seq<seq<nat>>
    requires dim < |t|
    decreases |t| - dim, j
  {
    if j == 0 then []
    else Sweep(n, t, cur, dim, j - 1, sorted) + Gen(n, t, SetColumn(cur, dim, n, Equal, j - 1), dim + 1, sorted)
  }

  /** The lines of one terrain, generated from the origin. */
  function TerrainLines(n: nat, t: Terrain, sorted: bool): seq<seq<nat>>
  {
    Gen(n, t, Origin(n, |t|), 0, sorted)
  }

  /** The lines of a list of terrains, terrain by terrain. */
  function AllLines(n: nat, ts: seq<Terrain>, sorted: bool): seq<seq<nat>>
  {
    if ts == [] then [] else AllLines(n, ts[..|ts| - 1], sorted) + TerrainLines(n, ts[|ts| - 1], sorted)
  }

  /** `_winning_lines` after `construct_winning_lines`: all lines, then the list sorted. */
  function WinningLines(n: nat, d: nat): seq<seq<nat>>
  {
    Sort(AllLines(n, UniqueTerrains(d), true), LexLe)
  }

  /** `line_size`: ((N+2)^D - N^D) / 2. */
  function LineSize(n: nat, d: nat): int
  {
    (Pow(n + 2, d) - Pow(n, d)) / 2
  }

  // ----- counting -----

  lemma SweepStep(j: nat, p: nat, a: nat, b: nat)
    requires j >= 1 && a == (j - 1) * p && b == p
    ensures a + b == j * p
  {
  }

  lemma CountEqualSplit(t: Terrain, dim: nat)
    requires dim < |t|
    ensures CountEqual(t[dim..]) == (if t[dim] == Equal then 1 else 0) + CountEqual(t[dim + 1..])
  {
    assert t[dim..][1..] == t[dim + 1..];
  }

  /** Every `equal` dimension from dim on multiplies the number of lines by N. */
  lemma {:induction false} GenCount(n: nat, t: Terrain, cur: seq<Cell>, dim: nat, sorted: bool)
    requires dim <= |t|
    ensures |Gen(n, t, cur, dim, sorted)| == Pow(n, CountEqual(t[dim..]))
    decreases |t| - dim, n + 1
  {
    if dim == |t| {
      assert t[dim..] == [];
    } else {
      CountEqualSplit(t, dim);
      match t[dim]
      case Up => GenCount(n, t, SetColumn(cur, dim, n, Up, 0), dim + 1, sorted);
      case Down => GenCount(n, t, SetColumn(cur, dim, n, Down, 0), dim + 1, sorted);
      case Equal => SweepCount(n, t, cur, dim, n, sorted);
    }
  }

  lemma {:induction false} SweepCount(n: nat, t: Terrain, cur: seq<Cell>, dim: nat, j: nat, sorted: bool)
    requires dim < |t|
    ensures |Sweep(n, t, cur, dim, j, sorted)| == j * Pow(n, CountEqual(t[dim + 1..]))
    decreases |t| - dim, j
  {
    if j > 0 {
      SweepCount(n, t, cur, dim, j - 1, sorted);
      GenCount(n, t, SetColumn(cur, dim, n, Equal, j - 1), dim + 1, sorted);
      SweepStep(j, Pow(n, CountEqual(t[dim + 1..])), |Sweep(n, t, cur, dim, j - 1, sorted)|,
        |Gen(n, t, SetColumn(cur, dim, n, Equal, j - 1), dim + 1, sorted)|);
    }
  }

  /** A terrain with e equal entries yields N^e lines. */
  lemma TerrainLinesCount(n: nat, t: Terrain, sorted: bool)
    ensures |TerrainLines(n, t, sorted)| == Pow(n, CountEqual(t))
  {
    GenCount(n, t, Origin(n, |t|), 0, sorted);
    assert t[0..] == t;
  }

  lemma {:induction false} AllLinesCount(n: nat, ts: seq<Terrain>, sorted: bool)
    ensures |AllLines(n, ts, sorted)| == Weight(n, ts)
  {
    if ts != [] {
      var k := |ts| - 1;
      AllLinesCount(n, ts[..k], sorted);
      TerrainLinesCount(n, ts[k], sorted);
      assert ts == ts[..k] + [ts[k]];
      WeightAppend(n, ts[..k], [ts[k]]);
      assert Weight(n, [ts[k]]) == Pow(n, CountEqual(ts[k])) + Weight(n, []);
    }
  }

  /** The assertion of `construct_winning_lines`: there are `line_size` lines. */
  lemma WinningLinesCount(n: nat, d: nat)
    ensures |WinningLines(n, d)| == LineSize(n, d)
    ensures 2 * |WinningLines(n, d)| == Pow(n + 2, d) - Pow(n, d)
  {
    AllLinesCount(n, UniqueTerrains(d), true);
    UniqueTerrainsWeight(n, d);
  }

  // ----- what each line looks like -----

  /**
   * The coordinates 0 .. dim-1 of the cells follow the terrain: an `up`
   * column counts up, a `down` column counts down, an `equal` column is one
   * value below N.
   */
  predicate Conforms(n: nat, t: Terrain, cur: seq<Cell>, dim: nat)
  {
    Shaped(cur, n, |t|) && dim <= |t| &&
    forall i, k :: 0 <= i < |cur| && 0 <= k < dim ==>
      cur[i][k] == ColumnValue(n, t[k], cur[0][k], i) && cur[0][k] < n
  }

  /** A winning line: N distinct cells of the board, ascending when sorted. */
  predicate LineOk(n: nat, d: nat, line: seq<nat>, sorted: bool)
  {
    |line| == n && NoDuplicates(line) && (forall p :: p in line ==> p < Pow(n, d)) &&
    (sorted ==> StrictlyIncreasing(line))
  }

  lemma SetColumnConforms(n: nat, t: Terrain, cur: seq<Cell>, dim: nat, j: nat)
    requires Conforms(n, t, cur, dim) && dim < |t|
    requires t[dim] == Equal ==> j < n
    ensures Conforms(n, t, SetColumn(cur, dim, n, t[dim], if t[dim] == Equal then j else 0), dim + 1)
  {
  }

  /** At the leaf every coordinate is a side value below N. */
  lemma LeafCellsBelow(n: nat, t: Terrain, cur: seq<Cell>, i: nat)
    requires Conforms(n, t, cur, |t|) && i < |cur|
    ensures DigitsBelow(cur[i], n)
  {
    forall k | 0 <= k < |t| ensures cur[i][k] < n {
      assert cur[i][k] == ColumnValue(n, t[k], cur[0][k], i);
    }
  }

  /** At the leaf the encoded cells are distinct positions of the board. */
  lemma LeafCellsDistinct(n: nat, t: Terrain, cur: seq<Cell>)
    requires Conforms(n, t, cur, |t|) && Kept(t)
    ensures NoDuplicates(EncodeCells(n, cur))
    ensures forall p :: p in EncodeCells(n, cur) ==> p < Pow(n, |t|)
  {
    KeptMeaning(t);
    var u :| 0 <= u < |t| && t[u] == Up && AllEqual(t[..u]);
    var e := EncodeCells(n, cur);
    forall i | 0 <= i < |cur| ensures e[i] < Pow(n, |t|) {
      LeafCellsBelow(n, t, cur, i);
      EncodeBound(n, cur[i]);
    }
    forall i, j | 0 <= i < j < |e| ensures e[i] != e[j] {
      assert cur[i][u] == i && cur[j][u] == j;
      if e[i] == e[j] {
        LeafCellsBelow(n, t, cur, i);
        LeafCellsBelow(n, t, cur, j);
        EncodeInjective(n, cur[i], cur[j]);
      }
    }
  }

  /** Sorting a line of distinct positions below a bound gives an ascending one. */
  lemma SortedLineOk(n: nat, d: nat, e: seq<nat>)
    requires LineOk(n, d, e, false)
    ensures LineOk(n, d, Sort<nat>(e, NatLe), true)
  {
    var s: seq<nat> := Sort<nat>(e, NatLe);
    NatLeTotal();
    SortIsSorted<nat>(e, NatLe);
    NoDuplicatesPermutation(e, s);
    SortedNoDuplicatesIncreasing(s);
    forall p | p in s ensures p < Pow(n, d) {
      assert p in multiset(s);
      assert p in multiset(e);
      assert p in e;
    }
  }

  /** At the leaf, the line is N distinct positions of the board. */
  lemma LeafOk(n: nat, t: Terrain, cur: seq<Cell>, sorted: bool)
    requires Conforms(n, t, cur, |t|) && Kept(t)
    ensures LineOk(n, |t|, Leaf(n, cur, sorted), sorted)
  {
    LeafCellsDistinct(n, t, cur);
    if sorted {
      SortedLineOk(n, |t|, EncodeCells(n, cur));
    }
  }

  lemma {:induction false} GenOk(n: nat, t: Terrain, cur: seq<Cell>, dim: nat, sorted: bool)
    requires Conforms(n, t, cur, dim) && Kept(t)
    ensures forall line :: line in Gen(n, t, cur, dim, sorted) ==> LineOk(n, |t|, line, sorted)
    decreases |t| - dim, n + 1
  {
    if dim == |t| {
      LeafOk(n, t, cur, sorted);
    } else {
      match t[dim]
      case Up =>
        SetColumnConforms(n, t, cur, dim, 0);
        GenOk(n, t, SetColumn(cur, dim, n, Up, 0), dim + 1, sorted);
      case Down =>
        SetColumnConforms(n, t, cur, dim, 0);
        GenOk(n, t, SetColumn(cur, dim, n, Down, 0), dim + 1, sorted);
      case Equal =>
        SweepOk(n, t, cur, dim, n, sorted);
    }
  }

  lemma {:induction false} SweepOk(n: nat, t: Terrain, cur: seq<Cell>, dim: nat, j: nat, sorted: bool)
    requires Conforms(n, t, cur, dim) && Kept(t) && dim < |t| && t[dim] == Equal && j <= n
    ensures forall line :: line in Sweep(n, t, cur, dim, j, sorted) ==> LineOk(n, |t|, line, sorted)
    decreases |t| - dim, j
  {
    if j > 0 {
      SweepOk(n, t, cur, dim, j - 1, sorted);
      SetColumnConforms(n, t, cur, dim, j - 1);
      GenOk(n, t, SetColumn(cur, dim, n, Equal, j - 1), dim + 1, sorted);
    }
  }

  lemma {:induction false} AllLinesOk(n: nat, d: nat, ts: seq<Terrain>, sorted: bool)
    requires forall t :: t in ts ==> |t| == d && Kept(t)
    ensures forall line :: line in AllLines(n, ts, sorted) ==> LineOk(n, d, line, sorted)
  {
    if ts != [] {
      var k := |ts| - 1;
      AllLinesOk(n, d, ts[..k], sorted);
      GenOk(n, ts[k], Origin(n, d), 0, sorted);
    }
  }

  /** Every winning line has N distinct positions of the board, ascending. */
  lemma WinningLinesOk(n: nat, d: nat)
    ensures forall line :: line in WinningLines(n, d) ==> LineOk(n, d, line, true)
  {
    forall t | t in UniqueTerrains(d) ensures |t| == d && Kept(t) {
      UniqueTerrainsMembers(d, t);
    }
    AllLinesOk(n, d, UniqueTerrains(d), true);
    var all := AllLines(n, UniqueTerrains(d), true);
    forall line | line in WinningLines(n, d) ensures line in all {
      assert line in multiset(Sort(all, LexLe));
    }
  }

  /** `_winning_lines` is in lexicographic order. */
  lemma WinningLinesSorted(n: nat, d: nat)
    ensures SortedBy(WinningLines(n, d), LexLe)
  {
    LexLeTotal();
    SortIsSorted(AllLines(n, UniqueTerrains(d), true), LexLe);
  }

  // ----- no line is generated twice -----

  /** Cell 0 of c has the coordinates 0 .. dim-1 of cell 0 of cur. */
  predicate AgreesBelow(c: seq<Cell>, cur: seq<Cell>, dim: nat)
  {
    |c| > 0 && |cur| > 0 && dim <= |c[0]| && dim <= |cur[0]| &&
    forall k :: 0 <= k < dim ==> c[0][k] == cur[0][k]
  }

  /** The line is the leaf of a completed `current_line` that agrees with cur below dim. */
  ghost predicate Traced(n: nat, t: Terrain, cur: seq<Cell>, dim: nat, sorted: bool, line: seq<nat>)
  {
    exists c :: Conforms(n, t, c, |t|) && AgreesBelow(c, cur, dim) && line == Leaf(n, c, sorted)
  }

  /** As `Traced`, with coordinate dim of cell 0 below j. */
  ghost predicate TracedBelow(n: nat, t: Terrain, cur: seq<Cell>, dim: nat, j: nat, sorted: bool, line: seq<nat>)
    requires dim < |t|
  {
    exists c :: Conforms(n, t, c, |t|) && AgreesBelow(c, cur, dim) && c[0][dim] < j && line == Leaf(n, c, sorted)
  }

  lemma {:induction false} GenTraced(n: nat, t: Terrain, cur: seq<Cell>, dim: nat, sorted: bool)
    requires n >= 1 && Conforms(n, t, cur, dim)
    ensures forall line :: line in Gen(n, t, cur, dim, sorted) ==> Traced(n, t, cur, dim, sorted, line)
    decreases |t| - dim, n + 1
  {
    if dim == |t| {
      assert AgreesBelow(cur, cur, dim);
    } else if t[dim] == Equal {
      SweepTraced(n, t, cur, dim, n, sorted);
    } else {
      var next := SetColumn(cur, dim, n, t[dim], 0);
      SetColumnConforms(n, t, cur, dim, 0);
      GenTraced(n, t, next, dim + 1, sorted);
      forall line | line in Gen(n, t, next, dim + 1, sorted) ensures Traced(n, t, cur, dim, sorted, line) {
        var c :| Conforms(n, t, c, |t|) && AgreesBelow(c, next, dim + 1) && line == Leaf(n, c, sorted);
        assert AgreesBelow(c, cur, dim);
      }
    }
  }

  lemma {:induction false} SweepTraced(n: nat, t: Terrain, cur: seq<Cell>, dim: nat, j: nat, sorted: bool)
    requires n >= 1 && Conforms(n, t, cur, dim) && dim < |t| && t[dim] == Equal && j <= n
    ensures forall line :: line in Sweep(n, t, cur, dim, j, sorted) ==> TracedBelow(n, t, cur, dim, j, sorted, line)
    ensures forall line :: line in Sweep(n, t, cur, dim, j, sorted) ==> Traced(n, t, cur, dim, sorted, line)
    decreases |t| - dim, j
  {
    if j > 0 {
      var next := SetColumn(cur, dim, n, Equal, j - 1);
      SweepTraced(n, t, cur, dim, j - 1, sorted);
      SetColumnConforms(n, t, cur, dim, j - 1);
      GenTraced(n, t, next, dim + 1, sorted);
      forall line | line in Sweep(n, t, cur, dim, j, sorted) ensures TracedBelow(n, t, cur, dim, j, sorted, line) {
        if line in Sweep(n, t, cur, dim, j - 1, sorted) {
          var c :| Conforms(n, t, c, |t|) && AgreesBelow(c, cur, dim) && c[0][dim] < j - 1 && line == Leaf(n, c, sorted);
        } else {
          assert line in Gen(n, t, next, dim + 1, sorted);
          var c :| Conforms(n, t, c, |t|) && AgreesBelow(c, next, dim + 1) && line == Leaf(n, c, sorted);
          assert c[0][dim] == j - 1;
          assert AgreesBelow(c, cur, dim);
        }
      }
    }
  }

  /** Equal leaves have the same cells: each cell of c1 is a cell of c2. */
  lemma LeafCellsWithin(n: nat, t1: Terrain, c1: seq<Cell>, t2: Terrain, c2: seq<Cell>, sorted: bool)
    requires n >= 1 && |t1| == |t2| && Conforms(n, t1, c1, |t1|) && Conforms(n, t2, c2, |t2|)
    requires Leaf(n, c1, sorted) == Leaf(n, c2, sorted)
    ensures forall i :: 0 <= i < |c1| ==> c1[i] in c2
  {
    var e1, e2 := EncodeCells(n, c1), EncodeCells(n, c2);
    assert multiset(e1) == multiset(e2) by {
      if sorted {
        assert multiset(Sort<nat>(e1, NatLe)) == multiset(Sort<nat>(e2, NatLe));
      }
    }
    forall i | 0 <= i < |c1| ensures c1[i] in c2 {
      assert e1[i] in multiset(e2);
      var j :| 0 <= j < |e2| && e2[j] == e1[i];
      LeafCellsBelow(n, t1, c1, i);
      LeafCellsBelow(n, t2, c2, j);
      EncodeInjective(n, c1[i], c2[j]);
    }
  }

  /** A constant column of one line is constant in any line with the same cells. */
  lemma EqualColumnsMatch(n: nat, t1: Terrain, c1: seq<Cell>, t2: Terrain, c2: seq<Cell>, k: nat)
    requires n >= 2 && |t1| == |t2| && Conforms(n, t1, c1, |t1|) && Conforms(n, t2, c2, |t2|)
    requires forall i :: 0 <= i < |c2| ==> c2[i] in c1
    requires k < |t1| && t1[k] == Equal
    ensures t2[k] == Equal
  {
    var a :| 0 <= a < |c1| && c1[a] == c2[0];
    var b :| 0 <= b < |c1| && c1[b] == c2[1];
    assert c2[0][k] == c1[0][k] == c2[1][k];
  }

  /**
   * The cells of a completed line determine its terrain and its coordinates:
   * constant columns match, the first rising column puts cell 0 first in
   * both, and cell 0 tells a rising column (0) from a falling one (N-1).
   */
  lemma ConformingCellsDetermine(n: nat, t1: Terrain, c1: seq<Cell>, t2: Terrain, c2: seq<Cell>)
    requires n >= 2 && |t1| == |t2| && Kept(t1) && Kept(t2)
    requires Conforms(n, t1, c1, |t1|) && Conforms(n, t2, c2, |t2|)
    requires forall i :: 0 <= i < |c1| ==> c1[i] in c2
    requires forall i :: 0 <= i < |c2| ==> c2[i] in c1
    ensures t1 == t2 && c1 == c2
  {
    forall k | 0 <= k < |t1| ensures t1[k] == Equal <==> t2[k] == Equal {
      if t1[k] == Equal {
        EqualColumnsMatch(n, t1, c1, t2, c2, k);
      }
      if t2[k] == Equal {
        EqualColumnsMatch(n, t2, c2, t1, c1, k);
      }
    }
    KeptMeaning(t1);
    KeptMeaning(t2);
    var u1 :| 0 <= u1 < |t1| && t1[u1] == Up && AllEqual(t1[..u1]);
    var u2 :| 0 <= u2 < |t2| && t2[u2] == Up && AllEqual(t2[..u2]);
    forall k | 0 <= k < u1 ensures t1[k] == Equal {
      assert t1[..u1][k] == t1[k];
    }
    forall k | 0 <= k < u2 ensures t2[k] == Equal {
      assert t2[..u2][k] == t2[k];
    }
    assert u1 == u2;
    var a :| 0 <= a < |c2| && c2[a] == c1[0];
    assert c2[a][u1] == a;
    assert c1[0] == c2[0];
    forall k | 0 <= k < |t1| ensures t1[k] == t2[k] {
      assert c1[0][k] == c2[0][k];
    }
    assert t1 == t2;
    forall i | 0 <= i < |c1| ensures c1[i] == c2[i] {
      forall k | 0 <= k < |t1| ensures c1[i][k] == c2[i][k] {
        assert c1[i][k] == ColumnValue(n, t1[k], c1[0][k], i);
      }
    }
  }

  /** Two completed lines with equal leaves are the same line of the same terrain. */
  lemma LeafInjective(n: nat, t1: Terrain, c1: seq<Cell>, t2: Terrain, c2: seq<Cell>, sorted: bool)
    requires n >= 2 && |t1| == |t2| && Kept(t1) && Kept(t2)
    requires Conforms(n, t1, c1, |t1|) && Conforms(n, t2, c2, |t2|)
    requires Leaf(n, c1, sorted) == Leaf(n, c2, sorted)
    ensures t1 == t2 && c1 == c2
  {
    LeafCellsWithin(n, t1, c1, t2, c2, sorted);
    LeafCellsWithin(n, t2, c2, t1, c1, sorted);
    ConformingCellsDetermine(n, t1, c1, t2, c2);
  }

  lemma {:induction false} GenDistinct(n: nat, t: Terrain, cur: seq<Cell>, dim: nat, sorted: bool)
    requires n >= 2 && Conforms(n, t, cur, dim) && Kept(t)
    ensures NoDuplicates(Gen(n, t, cur, dim, sorted))
    decreases |t| - dim, n + 1
  {
    if dim < |t| {
      if t[dim] == Equal {
        SweepDistinct(n, t, cur, dim, n, sorted);
      } else {
        SetColumnConforms(n, t, cur, dim, 0);
        GenDistinct(n, t, SetColumn(cur, dim, n, t[dim], 0), dim + 1, sorted);
      }
    }
  }

  lemma {:induction false} SweepDistinct(n: nat, t: Terrain, cur: seq<Cell>, dim: nat, j: nat, sorted: bool)
    requires n >= 2 && Conforms(n, t, cur, dim) && Kept(t) && dim < |t| && t[dim] == Equal && j <= n
    ensures NoDuplicates(Sweep(n, t, cur, dim, j, sorted))
    decreases |t| - dim, j
  {
    if j > 0 {
      var next := SetColumn(cur, dim, n, Equal, j - 1);
      var a, b := Sweep(n, t, cur, dim, j - 1, sorted), Gen(n, t, next, dim + 1, sorted);
      SweepDistinct(n, t, cur, dim, j - 1, sorted);
      SweepTraced(n, t, cur, dim, j - 1, sorted);
      SetColumnConforms(n, t, cur, dim, j - 1);
      GenDistinct(n, t, next, dim + 1, sorted);
      GenTraced(n, t, next, dim + 1, sorted);
      forall x, y | 0 <= x < |a| && 0 <= y < |b| ensures a[x] != b[y] {
        SweepLinesApart(n, t, cur, dim, j, sorted, a[x], b[y]);
      }
      NoDuplicatesAppend(a, b);
    }
  }

  /** A line of the sweep below j - 1 differs from every line of the sweep's step j - 1. */
  lemma SweepLinesApart(n: nat, t: Terrain, cur: seq<Cell>, dim: nat, j: nat, sorted: bool, la: seq<nat>, lb: seq<nat>)
    requires n >= 2 && Kept(t) && dim < |t| && 0 < j
    requires TracedBelow(n, t, cur, dim, j - 1, sorted, la)
    requires Traced(n, t, SetColumn(cur, dim, n, Equal, j - 1), dim + 1, sorted, lb)
    ensures la != lb
  {
    var next := SetColumn(cur, dim, n, Equal, j - 1);
    var c1 :| Conforms(n, t, c1, |t|) && AgreesBelow(c1, cur, dim) && c1[0][dim] < j - 1 && la == Leaf(n, c1, sorted);
    var c2 :| Conforms(n, t, c2, |t|) && AgreesBelow(c2, next, dim + 1) && lb == Leaf(n, c2, sorted);
    assert c2[0][dim] == j - 1;
    if la == lb {
      LeafInjective(n, t, c1, t, c2, sorted);
      assert false;
    }
  }

  /** The line is the leaf of a completed `current_line` of terrain t. */
  ghost predicate FromTerrain(n: nat, t: Terrain, sorted: bool, line: seq<nat>)
  {
    exists c :: Conforms(n, t, c, |t|) && line == Leaf(n, c, sorted)
  }

  lemma TerrainLinesTraced(n: nat, t: Terrain, sorted: bool)
    requires n >= 1
    ensures forall line :: line in TerrainLines(n, t, sorted) ==> FromTerrain(n, t, sorted, line)
  {
    GenTraced(n, t, Origin(n, |t|), 0, sorted);
    forall line | line in TerrainLines(n, t, sorted) ensures FromTerrain(n, t, sorted, line) {
      assert Traced(n, t, Origin(n, |t|), 0, sorted, line);
    }
  }

  lemma {:induction false} AllLinesDistinct(n: nat, d: nat, ts: seq<Terrain>, sorted: bool)
    requires n >= 2 && NoDuplicates(ts) && forall t :: t in ts ==> |t| == d && Kept(t)
    ensures NoDuplicates(AllLines(n, ts, sorted))
    ensures forall line :: line in AllLines(n, ts, sorted) ==> exists t :: t in ts && FromTerrain(n, t, sorted, line)
  {
    if ts != [] {
      var k := |ts| - 1;
      var init, last := ts[..k], ts[k];
      var a, b := AllLines(n, init, sorted), TerrainLines(n, last, sorted);
      assert forall t :: t in init ==> t in ts;
      AllLinesDistinct(n, d, init, sorted);
      TerrainLinesTraced(n, last, sorted);
      GenDistinct(n, last, Origin(n, d), 0, sorted);
      forall x, y | 0 <= x < |a| && 0 <= y < |b| ensures a[x] != b[y] {
        assert a[x] in a && b[y] in b;
        var t :| t in init && FromTerrain(n, t, sorted, a[x]);
        var c1 :| Conforms(n, t, c1, |t|) && a[x] == Leaf(n, c1, sorted);
        var c2 :| Conforms(n, last, c2, |last|) && b[y] == Leaf(n, c2, sorted);
        if a[x] == b[y] {
          LeafInjective(n, t, c1, last, c2, sorted);
          assert false;
        }
      }
      NoDuplicatesAppend(a, b);
      forall line | line in AllLines(n, ts, sorted) ensures exists t :: t in ts && FromTerrain(n, t, sorted, line) {
        if line in b {
          assert last in ts;
        }
      }
    }
  }

  /**
   * For N >= 2 no winning line is listed twice. (For N = 1 every line is the
   * single cell 0, so the lines of different terrains coincide.)
   */
  lemma WinningLinesDistinct(n: nat, d: nat)
    requires n >= 2
    ensures NoDuplicates(WinningLines(n, d))
  {
    forall t | t in UniqueTerrains(d) ensures |t| == d && Kept(t) {
      UniqueTerrainsMembers(d, t);
    }
    UniqueTerrainsDistinct(d);
    var all := AllLines(n, UniqueTerrains(d), true);
    AllLinesDistinct(n, d, UniqueTerrains(d), true);
    NoDuplicatesPermutation(all, Sort(all, LexLe));
  }
}
