/**
 * The board geometry of boarddata.hh (`Geometry<N, D>`, lines 49-258): the
 * cell encoding, the line directions, the sorted list of winning lines and
 * the tables derived from it, all filled once by the constructor.
 */
module BoardGeometry {
  import opened Wrappers
  import opened Digits
  import opened Terrain
  import opened Lines
  import opened Incidence
  import opened Sorting

  /** `encode_points`: a count as one glyph, '0'-'9', then 'A'-'Z', then '-'. */
  function EncodePoints(points: nat): char
  {
    if points < 10 then ('0' as int + points) as char
    else if points < 10 + 26 then ('A' as int + points - 10) as char
    else '-'
  }

  /** The count a glyph stands for, if any: the inverse of EncodePoints. */
  function GlyphValue(c: char): Option<nat>
  {
    if '0' <= c <= '9' then Some(c as int - '0' as int)
    else if 'A' <= c <= 'Z' then Some(c as int - 'A' as int + 10)
    else None
  }

  /** Counts below 36 get distinct glyphs that can be read back; all others print as '-'. */
  lemma EncodePointsRoundTrip(points: nat)
    ensures points < 36 ==> GlyphValue(EncodePoints(points)) == Some(points)
    ensures points >= 36 <==> EncodePoints(points) == '-'
    ensures GlyphValue('-') == None
  {
  }

  /** Every coordinate replaced by its image under a map of side values. */
  function PermuteSides(perm: seq<nat>, x: seq<nat>): (r: seq<nat>)
    ensures |r| == |x|
  {
    seq(|x|, k requires 0 <= k < |x| => if x[k] < |perm| then perm[x[k]] else x[k])
  }

  /** `apply_permutation(permutation, pos)`: decode, map every side, encode. */
  function PermutePosition(n: nat, d: nat, perm: seq<nat>, pos: nat): nat
    requires n >= 1
  {
    Encode(n, PermuteSides(perm, Decode(n, d, pos)))
  }

  class Geometry {
    const n: nat
    const d: nat
    /** `board_size` = N^D. */
    const boardSize: nat
    /** `line_size` = ((N+2)^D - N^D) / 2. */
    const lineSize: int
    var uniqueTerrains: seq<Terrain>
    /** `_winning_lines`, read through `winning_lines()`. */
    var winningLines: seq<seq<nat>>
    /** `_accumulation_points`, one counter per cell. */
    const accumulationPoints: array<nat>
    /** `_lines_through_position`, one list of line indices per cell. */
    const linesThroughPosition: array<seq<nat>>
    /** `_xor_table`, one entry per line. */
    var xorTable: seq<nat>

    /** The state the constructor leaves behind. */
    ghost predicate Valid()
      reads this, accumulationPoints, linesThroughPosition
    {
      n >= 1 && boardSize == Pow(n, d) && lineSize == LineSize(n, d) &&
      accumulationPoints.Length == boardSize && linesThroughPosition.Length == boardSize &&
      uniqueTerrains == UniqueTerrains(d) &&
      winningLines == WinningLines(n, d) &&
      (forall p :: 0 <= p < boardSize ==> accumulationPoints[p] == CountThrough(winningLines, p)) &&
      (forall p :: 0 <= p < boardSize ==> linesThroughPosition[p] == LinesThrough(winningLines, p)) &&
      |xorTable| == |winningLines| &&
      (forall i :: 0 <= i < |xorTable| ==> xorTable[i] == XorAll(winningLines[i]))
    }

    constructor (n: nat, d: nat)
      requires n >= 1
      ensures this.n == n && this.d == d && Valid()
      ensures |winningLines| == lineSize
      ensures forall line :: line in winningLines ==> LineOk(n, d, line, true)
    {
      this.n := n;
      this.d := d;
      var size := PowLoop(n, d);
      var wide := PowLoop(n + 2, d);
      boardSize := size;
      lineSize := (wide as int - size as int) / 2;
      accumulationPoints := new nat[size](_ => 0);
      linesThroughPosition := new seq<nat>[size](_ => []);
      uniqueTerrains, winningLines, xorTable := [], [], [];
      new;
      ConstructUniqueTerrains();
      ConstructWinningLines();
      WinningLinesOk(n, d);
      ConstructAccumulationPoints();
      ConstructLinesThroughPosition();
      ConstructXorTable();
    }

    /** `decode`: the D digits of pos, least significant first. */
    method Decode(pos: nat) returns (ans: seq<nat>)
      requires n >= 1
      ensures |ans| == d && DigitsBelow(ans, n)
      ensures pos < Pow(n, d) ==> Digits.Encode(n, ans) == pos
      ensures ans == Digits.Decode(n, d, pos)
    {
      ans := seq(d, _ => 0);
      var p: nat := pos;
      var i := 0;
      while i < d
        invariant 0 <= i <= d && |ans| == d
        invariant ans[..i] + Digits.Decode(n, d - i, p) == Digits.Decode(n, d, pos)
      {
        assert ans[..i] + Digits.Decode(n, d - i, p) == ans[..i] + [p % n] + Digits.Decode(n, d - i - 1, p / n);
        ans := ans[i := p % n];
        assert ans[..i + 1] == ans[..i] + [p % n];
        p := p / n;
        i := i + 1;
      }
      assert ans[..d] == ans;
      assert ans == Digits.Decode(n, d, pos);
      if pos < Pow(n, d) {
        EncodeDecode(n, d, pos);
      }
    }

    /** `encode`: accumulates digit * factor with factor = N^i. */
    method Encode(x: seq<nat>) returns (ans: nat)
      requires |x| == d
      ensures n >= 1 && DigitsBelow(x, n) ==> ans < Pow(n, d) && Digits.Decode(n, d, ans) == x
      ensures ans == Digits.Encode(n, x)
    {
      ans := 0;
      var factor: nat := 1;
      var i := 0;
      while i < |x|
        invariant 0 <= i <= |x|
        invariant ans + factor * Digits.Encode(n, x[i..]) == Digits.Encode(n, x)
      {
        assert x[i..][1..] == x[i + 1..];
        EncodeStep(ans, factor, x[i], n, Digits.Encode(n, x[i + 1..]));
        ans := ans + x[i] * factor;
        factor := factor * n;
        i := i + 1;
      }
      assert x[|x|..] == [];
      if n >= 1 && DigitsBelow(x, n) {
        EncodeBound(n, x);
        DecodeEncode(n, x);
      }
    }

    /** `apply_permutation(permutation, pos)`. */
    method ApplyPermutation(permutation: seq<nat>, pos: nat) returns (r: nat)
      requires n >= 1
      ensures r == PermutePosition(n, d, permutation, pos)
    {
      var decoded := Decode(pos);
      decoded := PermuteSides(permutation, decoded);
      r := Encode(decoded);
    }

    /** `apply_permutation(source, dest, permutation)`: the map applied position by position. */
    method ApplyPermutationAll(source: seq<nat>, permutation: seq<nat>) returns (dest: seq<nat>)
      requires n >= 1
      ensures |dest| == |source|
      ensures forall i :: 0 <= i < |source| ==> dest[i] == PermutePosition(n, d, permutation, source[i])
    {
      dest := [];
      var i := 0;
      while i < |source|
        invariant 0 <= i <= |source| && |dest| == i
        invariant forall k :: 0 <= k < i ==> dest[k] == PermutePosition(n, d, permutation, source[k])
      {
        var q := ApplyPermutation(permutation, source[i]);
        dest := dest + [q];
        i := i + 1;
      }
    }

    /** `fill_terrain`: entries 0 .. dim-1 of terrain are fixed, the rest are enumerated. */
    method FillTerrain(terrain: Terrain, dim: nat)
      requires |terrain| == d && dim <= d
      modifies this`uniqueTerrains
      ensures uniqueTerrains == old(uniqueTerrains) + Enumerate(terrain[..dim], d)
      decreases d - dim, 1
    {
      if dim == d {
        assert terrain[..dim] == terrain;
        if Kept(terrain) {
          uniqueTerrains := uniqueTerrains + [terrain];
        }
        return;
      }
      ghost var prefix, start := terrain[..dim], uniqueTerrains;
      var k := 0;
      while k < |AllDirections|
        invariant 0 <= k <= |AllDirections|
        invariant start + Enumerate(prefix, d) == uniqueTerrains + Branches(prefix, d, k)
      {
        FillDirection(terrain, dim, k);
        k := k + 1;
      }
    }

    /** One round of the loop over `all_directions`: entry dim set to direction k, then the recursion. */
    method FillDirection(terrain: Terrain, dim: nat, k: nat)
      requires |terrain| == d && dim < d && k < |AllDirections|
      modifies this`uniqueTerrains
      ensures old(uniqueTerrains) + Branches(terrain[..dim], d, k) ==
        uniqueTerrains + Branches(terrain[..dim], d, k + 1)
      decreases d - dim, 0
    {
      var next := terrain[dim := AllDirections[k]];
      assert next[..dim + 1] == terrain[..dim] + [AllDirections[k]];
      FillTerrain(next, dim + 1);
    }

    /** `construct_unique_terrains`. */
    method ConstructUniqueTerrains()
      requires uniqueTerrains == []
      modifies this`uniqueTerrains
      ensures uniqueTerrains == UniqueTerrains(d)
    {
      var terrain := seq(d, _ => Equal);
      FillTerrain(terrain, 0);
      assert terrain[..0] == [];
    }

    /** The transform at the leaf of `generate_lines`: every cell encoded. */
    method EncodeLine(cur: seq<Cell>) returns (line: seq<nat>)
      requires Shaped(cur, n, d)
      ensures line == EncodeCells(n, cur)
    {
      line := [];
      var i := 0;
      while i < |cur|
        invariant 0 <= i <= |cur| && |line| == i
        invariant forall k :: 0 <= k < i ==> line[k] == Digits.Encode(n, cur[k])
      {
        var code := Encode(cur[i]);
        line := line + [code];
        i := i + 1;
      }
    }

    /** `generate_lines`: appends the lines of terrain that extend current_line from dim on. */
    method GenerateLines(terrain: Terrain, currentLine: seq<Cell>, dim: nat)
      requires |terrain| == d && dim <= d && Shaped(currentLine, n, d)
      modifies this`winningLines
      ensures winningLines == old(winningLines) + Gen(n, terrain, currentLine, dim, true)
      decreases d - dim
    {
      if dim == d {
        var line := EncodeLine(currentLine);
        line := Sort(line, NatLe);
        winningLines := winningLines + [line];
        return;
      }
      match terrain[dim]
      case Up =>
        var cl := WriteColumn(n, d, currentLine, dim, Up, 0);
        GenerateLines(terrain, cl, dim + 1);
      case Down =>
        var cl := WriteColumn(n, d, currentLine, dim, Down, 0);
        GenerateLines(terrain, cl, dim + 1);
      case Equal =>
        var cl := currentLine;
        var j := 0;
        while j < n
          invariant 0 <= j <= n && Shaped(cl, n, d)
          invariant forall i, k :: 0 <= i < n && 0 <= k < d && k != dim ==> cl[i][k] == currentLine[i][k]
          invariant winningLines == old(winningLines) + Sweep(n, terrain, currentLine, dim, j, true)
        {
          SetColumnOverwrite(n, d, currentLine, cl, dim, Equal, j);
          cl := WriteColumn(n, d, cl, dim, Equal, j);
          GenerateLines(terrain, cl, dim + 1);
          j := j + 1;
        }
    }

    /** `construct_winning_lines`: every terrain from the origin, then the list sorted. */
    method ConstructWinningLines()
      requires uniqueTerrains == UniqueTerrains(d) && winningLines == [] && lineSize == LineSize(n, d)
      modifies this`winningLines
      ensures winningLines == WinningLines(n, d)
      ensures |winningLines| == lineSize
    {
      var currentLine := Origin(n, d);
      var k := 0;
      while k < |uniqueTerrains|
        invariant 0 <= k <= |uniqueTerrains|
        invariant winningLines == AllLines(n, uniqueTerrains[..k], true)
      {
        UniqueTerrainsMembers(d, uniqueTerrains[k]);
        GenerateLines(uniqueTerrains[k], currentLine, 0);
        assert uniqueTerrains[..k + 1][..k] == uniqueTerrains[..k];
        k := k + 1;
      }
      assert uniqueTerrains[..k] == uniqueTerrains;
      winningLines := Sort(winningLines, LexLe);
      WinningLinesCount(n, d);
      assert |winningLines| == lineSize;
    }

    /** `construct_accumulation_points`: one increment per (line, position). */
    method ConstructAccumulationPoints()
      requires forall p :: 0 <= p < accumulationPoints.Length ==> accumulationPoints[p] == 0
      requires forall line :: line in winningLines ==>
        NoDuplicates(line) && forall p :: p in line ==> p < accumulationPoints.Length
      modifies accumulationPoints
      ensures forall p :: 0 <= p < accumulationPoints.Length ==>
        accumulationPoints[p] == CountThrough(winningLines, p)
    {
      var li := 0;
      while li < |winningLines|
        invariant 0 <= li <= |winningLines|
        invariant forall p :: 0 <= p < accumulationPoints.Length ==>
          accumulationPoints[p] == CountThrough(winningLines[..li], p)
      {
        var line := winningLines[li];
        assert line in winningLines;
        var k := 0;
        while k < |line|
          invariant 0 <= k <= |line|
          invariant forall p :: 0 <= p < accumulationPoints.Length ==>
            accumulationPoints[p] == CountThrough(winningLines[..li], p) + (if p in line[..k] then 1 else 0)
        {
          var pos := line[k];
          assert line[..k + 1] == line[..k] + [pos];
          assert pos in line;
          assert pos !in line[..k] by {
            forall q | 0 <= q < k ensures line[..k][q] != pos {
              assert line[q] != line[k];
            }
          }
          accumulationPoints[pos] := accumulationPoints[pos] + 1;
          k := k + 1;
        }
        assert winningLines[..li + 1][..li] == winningLines[..li];
        assert line[..|line|] == line;
        li := li + 1;
      }
      assert winningLines[..li] == winningLines;
    }

    /** `construct_lines_through_position`: line i appended to the list of each of its cells. */
    method ConstructLinesThroughPosition()
      requires forall p :: 0 <= p < linesThroughPosition.Length ==> linesThroughPosition[p] == []
      requires lineSize == |winningLines|
      requires forall line :: line in winningLines ==>
        NoDuplicates(line) && forall p :: p in line ==> p < linesThroughPosition.Length
      modifies linesThroughPosition
      ensures forall p :: 0 <= p < linesThroughPosition.Length ==>
        linesThroughPosition[p] == LinesThrough(winningLines, p)
    {
      var i := 0;
      while i < lineSize
        invariant 0 <= i <= lineSize
        invariant forall p :: 0 <= p < linesThroughPosition.Length ==>
          linesThroughPosition[p] == LinesThrough(winningLines[..i], p)
      {
        var line := winningLines[i];
        assert line in winningLines;
        var k := 0;
        while k < |line|
          invariant 0 <= k <= |line|
          invariant forall p :: 0 <= p < linesThroughPosition.Length ==>
            linesThroughPosition[p] == LinesThrough(winningLines[..i], p) + (if p in line[..k] then [i] else [])
        {
          var pos := line[k];
          assert line[..k + 1] == line[..k] + [pos];
          assert pos in line;
          assert pos !in line[..k] by {
            forall q | 0 <= q < k ensures line[..k][q] != pos {
              assert line[q] != line[k];
            }
          }
          linesThroughPosition[pos] := linesThroughPosition[pos] + [i];
          k := k + 1;
        }
        assert winningLines[..i + 1][..i] == winningLines[..i];
        assert line[..|line|] == line;
        i := i + 1;
      }
      assert winningLines[..i] == winningLines;
    }

    /** `construct_xor_table`: the XOR of every line, in line order. */
    method ConstructXorTable()
      requires xorTable == []
      modifies this`xorTable
      ensures |xorTable| == |winningLines|
      ensures forall i :: 0 <= i < |xorTable| ==> xorTable[i] == XorAll(winningLines[i])
    {
      var i := 0;
      while i < |winningLines|
        invariant 0 <= i <= |winningLines| && |xorTable| == i
        invariant forall k :: 0 <= k < i ==> xorTable[k] == XorAll(winningLines[k])
      {
        var ans := XorAll(winningLines[i]);
        xorTable := xorTable + [ans];
        i := i + 1;
      }
    }
  }
}
