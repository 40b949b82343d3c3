/**
 * The earlier standalone geometry of tictactoe.cc (`Geometry<N, D>`, lines
 * 22-176). It builds the same terrains and lines as boarddata.hh, but keeps
 * each line in generation order, does not sort the list of lines and does not
 * check the line count; its cell-to-lines table is `winning_positions`.
 */
module LegacyGeometry {
  import opened Digits
  import opened Terrain
  import opened Lines
  import opened Incidence
  import opened Sorting

  /** The lines of tictactoe.cc: terrain by terrain, cells in generation order. */
  function LegacyLines(n: nat, d: nat): seq<seq<nat>>
  {
    AllLines(n, UniqueTerrains(d), false)
  }

  /** Each line sorted on its own. */
  function SortEach(ls: seq<seq<nat>>): (r: seq<seq<nat>>)
    ensures |r| == |ls|
  {
    seq(|ls|, i requires 0 <= i < |ls| => Sort<nat>(ls[i], NatLe))
  }

  lemma SortEachAppend(a: seq<seq<nat>>, b: seq<seq<nat>>)
    ensures SortEach(a + b) == SortEach(a) + SortEach(b)
  {
  }

  lemma {:induction false} GenSorted(n: nat, t: Terrain, cur: seq<Cell>, dim: nat)
    requires dim <= |t|
    ensures Gen(n, t, cur, dim, true) == SortEach(Gen(n, t, cur, dim, false))
    decreases |t| - dim, n + 1
  {
    if dim < |t| {
      match t[dim]
      case Up => GenSorted(n, t, SetColumn(cur, dim, n, Up, 0), dim + 1);
      case Down => GenSorted(n, t, SetColumn(cur, dim, n, Down, 0), dim + 1);
      case Equal => SweepSorted(n, t, cur, dim, n);
    }
  }

  lemma {:induction false} SweepSorted(n: nat, t: Terrain, cur: seq<Cell>, dim: nat, j: nat)
    requires dim < |t|
    ensures Sweep(n, t, cur, dim, j, true) == SortEach(Sweep(n, t, cur, dim, j, false))
    decreases |t| - dim, j
  {
    if j > 0 {
      SweepSorted(n, t, cur, dim, j - 1);
      GenSorted(n, t, SetColumn(cur, dim, n, Equal, j - 1), dim + 1);
      SortEachAppend(Sweep(n, t, cur, dim, j - 1, false),
        Gen(n, t, SetColumn(cur, dim, n, Equal, j - 1), dim + 1, false));
    }
  }

  lemma {:induction false} AllLinesSorted(n: nat, ts: seq<Terrain>)
    ensures AllLines(n, ts, true) == SortEach(AllLines(n, ts, false))
  {
    if ts != [] {
      var k := |ts| - 1;
      AllLinesSorted(n, ts[..k]);
      GenSorted(n, ts[k], Origin(n, |ts[k]|), 0);
      SortEachAppend(AllLines(n, ts[..k], false), TerrainLines(n, ts[k], false));
    }
  }

  /**
   * The two geometries agree: sorting every tictactoe.cc line and then the
   * list gives the boarddata.hh list of winning lines.
   */
  lemma LegacyAgreesWithBoardData(n: nat, d: nat)
    ensures WinningLines(n, d) == Sort(SortEach(LegacyLines(n, d)), LexLe)
  {
    AllLinesSorted(n, UniqueTerrains(d));
  }

  /** tictactoe.cc has as many lines as boarddata.hh asserts, each of N distinct cells. */
  lemma LegacyLinesFacts(n: nat, d: nat)
    ensures 2 * |LegacyLines(n, d)| == Pow(n + 2, d) - Pow(n, d)
    ensures forall line :: line in LegacyLines(n, d) ==> LineOk(n, d, line, false)
  {
    AllLinesCount(n, UniqueTerrains(d), false);
    UniqueTerrainsWeight(n, d);
    forall t | t in UniqueTerrains(d) ensures |t| == d && Kept(t) {
      UniqueTerrainsMembers(d, t);
    }
    AllLinesOk(n, d, UniqueTerrains(d), false);
  }

  /** For N >= 2 tictactoe.cc lists no line twice. */
  lemma LegacyLinesDistinct(n: nat, d: nat)
    requires n >= 2
    ensures NoDuplicates(LegacyLines(n, d))
  {
    forall t | t in UniqueTerrains(d) ensures |t| == d && Kept(t) {
      UniqueTerrainsMembers(d, t);
    }
    UniqueTerrainsDistinct(d);
    AllLinesDistinct(n, d, UniqueTerrains(d), false);
  }

  class Geometry {
    const n: nat
    const d: nat
    var uniqueTerrains: seq<Terrain>
    var winningLines: seq<seq<nat>>
    /** `accumulation_points`, one counter per cell. */
    const accumulationPoints: array<nat>
    /** `winning_positions`, one list of line indices per cell. */
    const winningPositions: array<seq<nat>>

    ghost predicate Valid()
      reads this, accumulationPoints, winningPositions
    {
      n >= 1 && accumulationPoints.Length == Pow(n, d) && winningPositions.Length == Pow(n, d) &&
      uniqueTerrains == UniqueTerrains(d) &&
      winningLines == LegacyLines(n, d) &&
      (forall c :: 0 <= c < Pow(n, d) ==> accumulationPoints[c] == CountThrough(winningLines, c)) &&
      (forall c :: 0 <= c < Pow(n, d) ==> winningPositions[c] == LinesThrough(winningLines, c))
    }

    constructor (n: nat, d: nat)
      requires n >= 1
      ensures this.n == n && this.d == d && Valid()
    {
      this.n := n;
      this.d := d;
      var size := PowLoop(n, d);
      accumulationPoints := new nat[size](_ => 0);
      winningPositions := new seq<nat>[size](_ => []);
      uniqueTerrains, winningLines := [], [];
      new;
      ConstructUniqueTerrains();
      ConstructWinningLines();
      LegacyLinesFacts(n, d);
      ConstructAccumulationPoints();
      ConstructWinningPositions();
    }

    /** `fill_terrain`: entries 0 .. pos-1 of terrain are fixed, the rest are enumerated. */
    method FillTerrain(terrain: Terrain, pos: nat)
      requires |terrain| == d && pos <= d
      modifies this`uniqueTerrains
      ensures uniqueTerrains == old(uniqueTerrains) + Enumerate(terrain[..pos], d)
      decreases d - pos, 1
    {
      if pos == d {
        assert terrain[..pos] == terrain;
        if Kept(terrain) {
          uniqueTerrains := uniqueTerrains + [terrain];
        }
        return;
      }
      ghost var prefix, start := terrain[..pos], uniqueTerrains;
      var k := 0;
      while k < |AllDirections|
        invariant 0 <= k <= |AllDirections|
        invariant start + Enumerate(prefix, d) == uniqueTerrains + Branches(prefix, d, k)
      {
        FillDirection(terrain, pos, k);
        k := k + 1;
      }
    }

    /** One round of the loop over `all_directions`: entry pos set to direction k, then the recursion. */
    method FillDirection(terrain: Terrain, pos: nat, k: nat)
      requires |terrain| == d && pos < d && k < |AllDirections|
      modifies this`uniqueTerrains
      ensures old(uniqueTerrains) + Branches(terrain[..pos], d, k) ==
        uniqueTerrains + Branches(terrain[..pos], d, k + 1)
      decreases d - pos, 0
    {
      var next := terrain[pos := AllDirections[k]];
      assert next[..pos + 1] == terrain[..pos] + [AllDirections[k]];
      FillTerrain(next, pos + 1);
    }

    /** `construct_unique_terrains`. */
    method ConstructUniqueTerrains()
      requires uniqueTerrains == []
      modifies this`uniqueTerrains
      ensures uniqueTerrains == UniqueTerrains(d)
    {
      var terrain := seq(d, _ => Equal);
      FillTerrain(terrain, 0);
      assert terrain[..0] == [];
    }

    /** `encode`: indexed loop over the D coordinates. */
    method Encode(dimIndex: seq<nat>) returns (ans: nat)
      requires |dimIndex| == d
      ensures ans == Digits.Encode(n, dimIndex)
      ensures n >= 1 && DigitsBelow(dimIndex, n) ==> ans < Pow(n, d) && Digits.Decode(n, d, ans) == dimIndex
    {
      ans := 0;
      var factor: nat := 1;
      var i := 0;
      while i < d
        invariant 0 <= i <= d
        invariant ans == Digits.Encode(n, dimIndex[..i]) && factor == Pow(n, i)
      {
        assert dimIndex[..i + 1] == dimIndex[..i] + [dimIndex[i]];
        EncodeSnoc(n, dimIndex[..i], dimIndex[i]);
        ans := ans + dimIndex[i] * factor;
        factor := factor * n;
        i := i + 1;
      }
      assert dimIndex[..d] == dimIndex;
      if n >= 1 && DigitsBelow(dimIndex, n) {
        EncodeBound(n, dimIndex);
        DecodeEncode(n, dimIndex);
      }
    }

    /** `decode`: pushes `code % N` and divides by N, D times. */
    method Decode(code: nat) returns (ans: seq<nat>)
      requires n >= 1
      ensures |ans| == d && DigitsBelow(ans, n)
      ensures code < Pow(n, d) ==> Digits.Encode(n, ans) == code
      ensures ans == Digits.Decode(n, d, code)
    {
      ans := [];
      var c: nat := code;
      var i := 0;
      while i < d
        invariant 0 <= i <= d
        invariant ans + Digits.Decode(n, d - i, c) == Digits.Decode(n, d, code)
      {
        assert ans + Digits.Decode(n, d - i, c) == ans + [c % n] + Digits.Decode(n, d - i - 1, c / n);
        ans := ans + [c % n];
        c := c / n;
        i := i + 1;
      }
      assert Digits.Decode(n, 0, c) == [];
      assert ans == Digits.Decode(n, d, code);
      if code < Pow(n, d) {
        EncodeDecode(n, d, code);
      }
    }

    /** The leaf of `generate_lines`: `line[j] = encode(current_line[j])` for every cell. */
    method EncodeLine(currentLine: seq<Cell>) returns (line: seq<nat>)
      requires Shaped(currentLine, n, d)
      ensures line == EncodeCells(n, currentLine)
    {
      line := seq(n, _ => 0);
      var j := 0;
      while j < n
        invariant 0 <= j <= n && |line| == n
        invariant forall k :: 0 <= k < j ==> line[k] == Digits.Encode(n, currentLine[k])
      {
        var code := Encode(currentLine[j]);
        line := line[j := code];
        j := j + 1;
      }
    }

    /** `generate_lines`: appends the lines of terrain that extend current_line from pos on. */
    method GenerateLines(terrain: Terrain, currentLine: seq<Cell>, pos: nat)
      requires |terrain| == d && pos <= d && Shaped(currentLine, n, d)
      modifies this`winningLines
      ensures winningLines == old(winningLines) + Gen(n, terrain, currentLine, pos, false)
      decreases d - pos
    {
      if pos == d {
        var line := EncodeLine(currentLine);
        winningLines := winningLines + [line];
        return;
      }
      match terrain[pos]
      case Up =>
        var cl := WriteColumn(n, d, currentLine, pos, Up, 0);
        GenerateLines(terrain, cl, pos + 1);
      case Down =>
        var cl := WriteColumn(n, d, currentLine, pos, Down, 0);
        GenerateLines(terrain, cl, pos + 1);
      case Equal =>
        var cl := currentLine;
        var j := 0;
        while j < n
          invariant 0 <= j <= n && Shaped(cl, n, d)
          invariant forall i, k :: 0 <= i < n && 0 <= k < d && k != pos ==> cl[i][k] == currentLine[i][k]
          invariant winningLines == old(winningLines) + Sweep(n, terrain, currentLine, pos, j, false)
        {
          SetColumnOverwrite(n, d, currentLine, cl, pos, Equal, j);
          cl := WriteColumn(n, d, cl, pos, Equal, j);
          GenerateLines(terrain, cl, pos + 1);
          j := j + 1;
        }
    }

    /** `construct_winning_lines`: every terrain from the origin, no final sort. */
    method ConstructWinningLines()
      requires uniqueTerrains == UniqueTerrains(d) && winningLines == []
      modifies this`winningLines
      ensures winningLines == LegacyLines(n, d)
    {
      var currentLine := Origin(n, d);
      var k := 0;
      while k < |uniqueTerrains|
        invariant 0 <= k <= |uniqueTerrains|
        invariant winningLines == AllLines(n, uniqueTerrains[..k], false)
      {
        UniqueTerrainsMembers(d, uniqueTerrains[k]);
        GenerateLines(uniqueTerrains[k], currentLine, 0);
        assert uniqueTerrains[..k + 1][..k] == uniqueTerrains[..k];
        k := k + 1;
      }
      assert uniqueTerrains[..k] == uniqueTerrains;
    }

    /** `construct_accumulation_points`: one increment per (line, cell). */
    method ConstructAccumulationPoints()
      requires forall c :: 0 <= c < accumulationPoints.Length ==> accumulationPoints[c] == 0
      requires forall line :: line in winningLines ==>
        NoDuplicates(line) && forall c :: c in line ==> c < accumulationPoints.Length
      modifies accumulationPoints
      ensures forall c :: 0 <= c < accumulationPoints.Length ==>
        accumulationPoints[c] == CountThrough(winningLines, c)
    {
      var li := 0;
      while li < |winningLines|
        invariant 0 <= li <= |winningLines|
        invariant forall c :: 0 <= c < accumulationPoints.Length ==>
          accumulationPoints[c] == CountThrough(winningLines[..li], c)
      {
        var line := winningLines[li];
        assert line in winningLines;
        var k := 0;
        while k < |line|
          invariant 0 <= k <= |line|
          invariant forall c :: 0 <= c < accumulationPoints.Length ==>
            accumulationPoints[c] == CountThrough(winningLines[..li], c) + (if c in line[..k] then 1 else 0)
        {
          var code := line[k];
          assert line[..k + 1] == line[..k] + [code];
          assert code in line;
          assert code !in line[..k] by {
            forall q | 0 <= q < k ensures line[..k][q] != code {
              assert line[q] != line[k];
            }
          }
          accumulationPoints[code] := accumulationPoints[code] + 1;
          k := k + 1;
        }
        assert winningLines[..li + 1][..li] == winningLines[..li];
        assert line[..|line|] == line;
        li := li + 1;
      }
      assert winningLines[..li] == winningLines;
    }

    /** `construct_winning_positions`: line i appended to the list of each of its cells. */
    method ConstructWinningPositions()
      requires forall c :: 0 <= c < winningPositions.Length ==> winningPositions[c] == []
      requires forall line :: line in winningLines ==>
        NoDuplicates(line) && forall c :: c in line ==> c < winningPositions.Length
      modifies winningPositions
      ensures forall c :: 0 <= c < winningPositions.Length ==>
        winningPositions[c] == LinesThrough(winningLines, c)
    {
      var size := |winningLines|;
      var i := 0;
      while i < size
        invariant 0 <= i <= size
        invariant forall c :: 0 <= c < winningPositions.Length ==>
          winningPositions[c] == LinesThrough(winningLines[..i], c)
      {
        var line := winningLines[i];
        assert line in winningLines;
        var k := 0;
        while k < |line|
          invariant 0 <= k <= |line|
          invariant forall c :: 0 <= c < winningPositions.Length ==>
            winningPositions[c] == LinesThrough(winningLines[..i], c) + (if c in line[..k] then [i] else [])
        {
          var code := line[k];
          assert line[..k + 1] == line[..k] + [code];
          assert code in line;
          assert code !in line[..k] by {
            forall q | 0 <= q < k ensures line[..k][q] != code {
              assert line[q] != line[k];
            }
          }
          winningPositions[code] := winningPositions[code] + [i];
          k := k + 1;
        }
        assert winningLines[..i + 1][..i] == winningLines[..i];
        assert line[..|line|] == line;
        i := i + 1;
      }
      assert winningLines[..i] == winningLines;
    }
  }
}
