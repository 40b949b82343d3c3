# A verified model of the N^D tic-tac-toe board data, strategies and solver

This project models the core of a generalised tic-tac-toe program. The board
is an N × … × N hypercube of D dimensions, and a line is any N cells in a row
along a combination of axis directions. The model has three parts.

* **Board geometry and its symmetries (`boarddata.hh`).**
  * `Geometry` numbers the cells with D base-N digits, least significant
    first. It enumerates the line directions ("terrains"): one of each
    up/down pair, and never the all-`equal` vector. From them it generates
    every winning line, with the cells of each line sorted, and then sorts
    the list of lines. It then builds the count of lines through each cell,
    the inverted index from cells to lines, and the XOR of the cells of each
    line.
  * `Symmetry` builds the rotations: every axis order combined with every
    reflection mask, re-encoded most significant digit first. It builds the
    eviscerations: the side permutations that map every line onto a line.
    It keeps the sorted, duplicate-free set of inverses of
    rotation∘evisceration.
  * `SymmeTrie` is a breadth-first graph of "similar" lists of symmetry
    numbers, deduplicated by content, with one orbit mask per node and
    position.
* **Move selection and play (`tictactoe.hh`).**
  * `operator||` and `>>` chain strategies: the first that proposes a move
    wins.
  * `ForcingMove` completes a line with N − 1 marks of one side and none of
    the other. It finds the missing cell through the XOR table.
  * `ForcingStrategy` plays a double threat.
  * `BiasedRandom` picks a position by cumulative weights.
  * `HeatMap` scores each open position by Monte-Carlo playouts and picks
    the best.
  * `GameEngine::play` alternates turns until someone wins or no position
    is open.
  * `MiniMax::play` is the recursive three-valued solver. It has a draw
    cut-off.
* **The earlier standalone geometry (`tictactoe.cc`).** It builds the same
  lines, without sorting the cells of a line or the list of lines. It also
  builds the same per-cell counts and line indices.

Each class of the source whose members are filled in place is a Dafny
`class` whose fields correspond to the source's data members:
* `BoardGeometry.Geometry`, `LegacyGeometry.Geometry`,
  `BoardSymmetry.Symmetry` and `SymmetryTrie.SymmeTrie` have the source's
  tables. The template parameters N and D, and the object a class is built
  from (the geometry of a `Symmetry`, the symmetries of a `SymmeTrie`),
  become `const` fields.
* `Engine.GameEngine` has `state` and `strategy` as in the source. Its
  `rules` field stands in for the `State` operations, and it has no
  `generator` (tictactoe.hh:402-404), since the strategy carries its draws.
* `Solver.MiniMax` has `state` and `nodesVisited` as in the source. In place
  of `data` (tictactoe.hh:262-265) it has the abstract inputs `rules` and
  `view`. In place of `generator` it has the draw oracle `draws`, a `fuel`
  bound on each playout of the heat map, and a ghost measure `size`.

Their methods are loops and recursions proved against specification
functions (`Lines.WinningLines`, `Incidence.LinesThrough`,
`BoardSymmetry.AllRotations`, `Solver.MiniMax.Value`, …). Lemmas about those
functions state the source's promises: round trips, counts, sortedness,
membership and uniqueness.

**Abstract inputs.** `State`, `Bitfield`, `crossings()` and `flip` are
defined in headers outside this model (`state.hh` is not part of this
model). They enter as abstract inputs:
* a `Rules` value: open positions of a state for a mover, a play oracle that
  returns the new state and whether the move won, and `flip`;
* a `View` value: per-line own and opponent counts, the XOR table, per-cell
  accumulation, and per-cell crossing pairs.

**Random draws.** The random generator is replaced by draw oracles
(`Engine.Draws`). In the heat map, the draw for trial t of the position at
index i of the open list, when the playout reaches state s with mover m, is
`draws(i, t, s, m)`. The solver takes one such oracle per node,
`draws(current, mark)`.

**Solver.** `MiniMax` is proved exact against a reference game value
(`Solver.GameValue`, defined by `exists` over the open positions) under four
assumptions (`Solver.MiniMax.ValueExact`):
* `Decreasing`: every play makes an abstract size smaller, which gives
  termination;
* `Swaps`: `flip` exchanges X and O;
* `Quiet`: the forcing chain on the member state never fires;
* the mover `mark` is X or O, not empty.

`Solver.MiniMax.EmptyBoardExact` shows that `Quiet` holds when the member
state is an empty board and N ≥ 3. On a board with marks, the forcing chain
reads the member `state` rather than `current_state` (modelled as written),
so no exactness is claimed there.

**Trie index quirk.** The trie is modelled exactly as written: a child's list
holds *local* indices `j` into the parent's list, not `current[j]`
(boarddata.hh:459-460). `SymmetryTrie.StabilizerPath` is the list of
symmetries that fix every position of a path. For a path of one step the two
agree for every list of symmetries, because the root's list is
`0 .. |symmetries| - 1` (`SymmetryTrie.FirstStepAgrees`).
`SymmetryTrie.AsWrittenLosesSymmetries` takes as its list of symmetries the
six permutations of three cells in sorted order (`SymmetryTrie.ThreeCells`,
written out by hand, not derived from `Symmetry`). On that list, after two
steps, the stored list and its orbit mask differ from the stabilizer's.

## Model

| member | source | states |
|---|---|---|
| Digits.PowLoop | boarddata.hh:40-47 | `pow(a, b)` by repeated multiplication equals a^b |
| Digits.Decode | boarddata.hh:85-92 | decoding a cell gives exactly D digits, each below N |
| Digits.EncodeDecode | boarddata.hh:85-92 | encoding the digits of a cell p < N^D gives back p |
| Digits.DecodeEncode | boarddata.hh:203-211 | decoding the code of D digits below N gives back the digits |
| Digits.EncodeBound | boarddata.hh:203-211 | the code of digits below N is below N^(number of digits) |
| Digits.EncodeInjective | boarddata.hh:203-211 | distinct digit tuples below N have distinct codes |
| Digits.DecodeInjective | boarddata.hh:85-92 | distinct cells below N^D have distinct digits |
| Digits.MsbEncodeBound | boarddata.hh:342-357 | the most-significant-first re-encoding of a rotation stays below N^D |
| Digits.MsbEncodeInjective | boarddata.hh:342-357 | the most-significant-first re-encoding is one-to-one on digits below N |
| Digits.MsbEncodeReversed | boarddata.hh:342-357 | most-significant-first encoding is least-significant-first encoding of the reversed digits |
| Digits.Reverse | boarddata.hh:342-357 | reversal puts digit i at position length − 1 − i |
| BoardGeometry.Geometry.constructor | boarddata.hh:52-59 | construction leaves every table as its specification says, with line_size lines, each a valid sorted line |
| BoardGeometry.Geometry.Decode | boarddata.hh:85-92 | D digits below N that encode back to the cell |
| BoardGeometry.Geometry.Encode | boarddata.hh:203-211 | the code of the digits, below N^D, which decodes back to the digits |
| BoardGeometry.Geometry.ApplyPermutation | boarddata.hh:139-145 | the cell whose digits are the permuted digits of pos |
| BoardGeometry.Geometry.ApplyPermutationAll | boarddata.hh:94-99 | the list form maps each source cell by the permutation, in order |
| BoardGeometry.Geometry.FillTerrain | boarddata.hh:147-160 | appends exactly the kept completions of the terrain prefix, in enumeration order |
| BoardGeometry.Geometry.ConstructUniqueTerrains | boarddata.hh:162-165 | the terrain list is the enumeration of all kept direction vectors of length D |
| BoardGeometry.Geometry.EncodeLine | boarddata.hh:170-174 | a line's cells are the codes of its digit columns |
| BoardGeometry.Geometry.GenerateLines | boarddata.hh:167-201 | appends exactly the lines the terrain generates from the current column state, each sorted |
| BoardGeometry.Geometry.ConstructWinningLines | boarddata.hh:213-220 | the lines are the sorted list of all generated lines, and their count is line_size (the assertion at 219) |
| BoardGeometry.Geometry.ConstructAccumulationPoints | boarddata.hh:222-228 | accumulation_points[p] is the number of lines through p |
| BoardGeometry.Geometry.ConstructLinesThroughPosition | boarddata.hh:235-241 | lines_through_position[p] lists exactly the indices of the lines through p |
| BoardGeometry.Geometry.ConstructXorTable | boarddata.hh:243-251 | one entry per line, the XOR of that line's cells |
| BoardGeometry.EncodePointsRoundTrip | boarddata.hh:230-233 | counts 0..35 map to distinct glyphs that read back as the count; every larger count maps to '-' |
| BoardGeometry.PermuteSides | boarddata.hh:139-145 | permuting the digits keeps their number; what the moved cells mean is stated by `BoardSymmetry.EviscerationIsBijection` |
| Terrain.KeptMeaning | boarddata.hh:147-160 | a terrain is kept iff its first non-equal direction is up |
| Terrain.AllEqualNotKept | boarddata.hh:147-160 | the all-equal terrain is never kept |
| Terrain.KeptNotAllEqual | boarddata.hh:147-160 | a kept terrain is not all-equal |
| Terrain.KeptExactlyOneOfSwap | boarddata.hh:147-160 | of a terrain and its up/down swap exactly one is kept |
| Terrain.Swap | boarddata.hh:147-160 | the up/down swap keeps the terrain's length; `Terrain.KeptExactlyOneOfSwap` states that exactly one of a terrain and its swap is kept |
| Terrain.EnumerateMembers | boarddata.hh:147-160 | the recursion from a prefix yields exactly the kept length-D terrains extending it |
| Terrain.BranchesMembers | boarddata.hh:156-159 | the loop over directions from index k yields exactly the kept terrains whose next direction is one of the rest |
| Terrain.UniqueTerrainsMembers | boarddata.hh:162-165 | a terrain is listed iff it has length D and is kept |
| Terrain.EnumerateDistinct | boarddata.hh:147-160 | the recursion from a prefix lists no terrain twice |
| Terrain.BranchesDistinct | boarddata.hh:156-159 | the loop over directions lists no terrain twice: different directions give different terrains |
| Terrain.UniqueTerrainsDistinct | boarddata.hh:162-165 | `unique_terrains` has no duplicates |
| Terrain.EnumerateWeight | boarddata.hh:162-165 | the number of lines the terrains below a prefix give, in closed form for each kind of prefix |
| Terrain.WeightAllEqual | boarddata.hh:162-165 | below an all-equal prefix the line count is N^k((N+2)^(D−k) − N^(D−k))/2 |
| Terrain.WeightKept | boarddata.hh:162-165 | below a kept prefix the line count is N^(equals)·(N+2)^(D−k) |
| Terrain.WeightDownFirst | boarddata.hh:162-165 | below a prefix whose first non-equal is down no terrain is listed |
| Terrain.UniqueTerrainsWeight | boarddata.hh:61-65 | the terrains give (N+2)^D − N^D lines twice over, the line_size formula |
| Lines.Origin | boarddata.hh:214 | the starting column state has N cells of D digits; that every line built from it is valid and distinct is stated by `Lines.WinningLinesOk` and `Lines.WinningLinesDistinct` |
| Lines.SetColumn | boarddata.hh:167-201 | writing one dimension's column keeps the number of cells; `Lines.SetColumnConforms` states that the cells then follow the terrain |
| Lines.SetColumnOverwrite | boarddata.hh:167-201 | a column write depends on the other columns only, not on what the dimension held before |
| Lines.EncodeCells | boarddata.hh:170-174 | encoding the cells keeps their number; `Lines.LeafCellsDistinct` states that they are distinct cells of the board |
| Lines.WriteColumn | boarddata.hh:179-199 | the in-place column write gives the specified column state |
| Lines.GenCount | boarddata.hh:167-201 | from dimension k the recursion yields N^(equal dimensions left) lines |
| Lines.SweepCount | boarddata.hh:167-201 | the loop over j < N multiplies the count by N for an equal dimension |
| Lines.TerrainLinesCount | boarddata.hh:167-201 | one terrain yields N^(number of equal dimensions) lines |
| Lines.AllLinesCount | boarddata.hh:213-220 | all terrains together yield their weight in lines |
| Lines.WinningLinesCount | boarddata.hh:213-220 | the sorted list has line_size = ((N+2)^D − N^D)/2 lines |
| Lines.SetColumnConforms | boarddata.hh:167-201 | each column write keeps the cells consistent with the terrain's directions |
| Lines.LeafCellsBelow | boarddata.hh:169-177 | every finished cell has D digits below N |
| Lines.LeafCellsDistinct | boarddata.hh:169-177 | the N cells of a kept terrain's line are distinct cells of the board |
| Lines.SortedLineOk | boarddata.hh:175 | sorting a line keeps it a line of N distinct cells and makes it ascending |
| Lines.LeafOk | boarddata.hh:169-177 | every emitted line has N distinct cells below N^D, ascending when sorted |
| Lines.GenOk | boarddata.hh:167-201 | every line the recursion emits is a valid line |
| Lines.SweepOk | boarddata.hh:167-201 | every line the loop over j emits is a valid line |
| Lines.AllLinesOk | boarddata.hh:213-218 | every line of every kept terrain is valid |
| Lines.WinningLinesOk | boarddata.hh:213-220 | every winning line has exactly N distinct cells, in ascending order |
| Lines.WinningLinesSorted | boarddata.hh:218 | the list of winning lines is lexicographically sorted |
| Lines.GenTraced | boarddata.hh:167-201 | every line the recursion emits is the leaf of a completed, terrain-conforming column state that keeps the columns already written |
| Lines.SweepTraced | boarddata.hh:179-199 | every line the loop over j < J emits has its equal column below J |
| Lines.LeafCellsWithin | boarddata.hh:169-177 | two equal emitted lines have the same cells |
| Lines.EqualColumnsMatch | boarddata.hh:179-199 | for N ≥ 2, a constant column of one line is constant in any line with the same cells |
| Lines.ConformingCellsDetermine | boarddata.hh:167-201 | for N ≥ 2, the cells of a line determine its kept terrain and its column state |
| Lines.LeafInjective | boarddata.hh:167-201 | for N ≥ 2, two equal emitted lines come from the same terrain and column state |
| Lines.GenDistinct | boarddata.hh:167-201 | for N ≥ 2, the recursion emits no line twice |
| Lines.SweepDistinct | boarddata.hh:179-199 | for N ≥ 2, the loop over j emits no line twice |
| Lines.SweepLinesApart | boarddata.hh:179-199 | for N ≥ 2, a line with its equal column below j − 1 differs from every line with that column at j − 1 |
| Lines.TerrainLinesTraced | boarddata.hh:213-217 | every line of a terrain comes from a column state of that terrain |
| Lines.AllLinesDistinct | boarddata.hh:213-218 | for N ≥ 2, distinct kept terrains together emit no line twice, and every line comes from one of them |
| Lines.WinningLinesDistinct | boarddata.hh:213-220 | for N ≥ 2, no winning line is listed twice |
| Incidence.LinesThroughMembers | boarddata.hh:235-241 | line i is listed for p iff it is a line and contains p |
| Incidence.LinesThroughBound | boarddata.hh:235-241 | every listed index is a line index |
| Incidence.LinesThroughIncreasing | boarddata.hh:235-241 | the list for p is strictly increasing |
| Incidence.LinesThroughTotal | boarddata.hh:235-241 | every line through p is listed for p |
| Incidence.CountThroughLength | boarddata.hh:222-228 | the count through p equals the length of the list for p |
| Incidence.CountThroughCardinality | boarddata.hh:222-228 | the count through p is the number of distinct lines containing p |
| Incidence.XorBits | boarddata.hh:243-251 | XOR works bit by bit: parity of the sum and XOR of the halves |
| Incidence.XorSelf | boarddata.hh:243-251 | x XOR x is 0 |
| Incidence.XorCommutes | boarddata.hh:243-251 | XOR is commutative |
| Incidence.XorAssociates | boarddata.hh:243-251 | XOR is associative, so the table does not depend on grouping |
| Incidence.XorAllAppend | boarddata.hh:243-251 | the XOR of a concatenation is the XOR of the parts |
| Incidence.XorRecoversCell | boarddata.hh:243-251 | XOR of a line with the XOR of all but cell k gives cell k, the recovery `ForcingMove` relies on |
| Incidence.XorRecoversMiddle | boarddata.hh:243-251 | the same recovery stated for a + [c] + b |
| Sorting.Insert | boarddata.hh:218 | insertion adds exactly the element to the multiset |
| Sorting.Sort | boarddata.hh:218 | `std::sort` stand-in: a permutation of its input |
| Sorting.InsertSorted | boarddata.hh:218 | insertion into a sorted list keeps it sorted |
| Sorting.SortIsSorted | boarddata.hh:218 | the result is sorted for any total order |
| Sorting.SortedUnique | boarddata.hh:218 | two sorted permutations of the same multiset are equal, so the sorted result does not depend on the sort |
| Sorting.SortOfSorted | boarddata.hh:218 | sorting a sorted list changes nothing |
| Sorting.NoDuplicatesPermutation | boarddata.hh:218 | a permutation of a duplicate-free list is duplicate-free |
| Sorting.NoDuplicatesAppend | boarddata.hh:213-218 | joining two duplicate-free lists with nothing in common gives a duplicate-free list |
| Sorting.SortedNoDuplicatesIncreasing | boarddata.hh:175 | a sorted duplicate-free line is strictly increasing |
| Sorting.LexLeTotal | boarddata.hh:218 | the lexicographic order on lines is a total order |
| Sorting.BinarySearch | boarddata.hh:327-330 | `binary_search` finds x iff x is in the sorted list |
| Sorting.SetInsert | boarddata.hh:283-296 | `std::set::insert` keeps the set ordered and adds exactly x |
| Permutations.Range | boarddata.hh:298-306 | the identity permutation 0..k−1 |
| Permutations.Remove | boarddata.hh:298-306 | removing one element shortens the list by one; the enumeration it serves is characterised by `Permutations.PermsAreArrangements` and `Permutations.PermsComplete` |
| Permutations.Prepend | boarddata.hh:298-306 | prefixing every permutation keeps their number; the enumeration it serves is characterised by `Permutations.PermsAreArrangements` and `Permutations.PermsComplete` |
| Permutations.PermsFirst | boarddata.hh:298-306 | the enumeration starts with the sorted start value itself |
| Permutations.PermsAreArrangements | boarddata.hh:298-306 | every enumerated sequence is a permutation of the start |
| Permutations.PermsComplete | boarddata.hh:298-306 | every permutation of a duplicate-free start is enumerated |
| BoardSymmetry.RotationDigits | boarddata.hh:342-357 | a rotation produces one digit per axis; `BoardSymmetry.RotationDigitsInjective` states that it is one-to-one |
| BoardSymmetry.Rotation | boarddata.hh:342-357 | a rotation table has one entry per cell; `BoardSymmetry.RotationIsBijection` states that it maps the board one-to-one onto itself |
| BoardSymmetry.RotationsOf | boarddata.hh:332-340 | one axis order gives 2^D rotation tables |
| BoardSymmetry.AxisOrders | boarddata.hh:332-340 | every enumerated axis order is a duplicate-free order of the D axes |
| BoardSymmetry.RotationIsBijection | boarddata.hh:342-357 | each rotation maps the board one-to-one onto itself |
| BoardSymmetry.RotationIdentity | boarddata.hh:342-357 | the reversed axis order without reflections is the identity table |
| BoardSymmetry.ReversedAxesVisited | boarddata.hh:332-340 | the reversed axis order is among the enumerated orders |
| BoardSymmetry.IdentityIsRotation | boarddata.hh:332-340 | the identity is one of the rotations |
| BoardSymmetry.AllRotationsMembers | boarddata.hh:332-340 | a table is a rotation iff it is the rotation of some axis order and reflection mask below 2^D |
| BoardSymmetry.RotationsAreBijections | boarddata.hh:332-340 | every rotation is a one-to-one table |
| BoardSymmetry.PermuteLine | boarddata.hh:315-325 | a line's image has as many cells as the line; `BoardSymmetry.Symmetry.ImageIsLine` states when that image is a winning line |
| BoardSymmetry.EviscerationTable | boarddata.hh:308-313 | an evisceration table has one entry per cell; `BoardSymmetry.EviscerationIsBijection` states that it maps the board one-to-one onto itself |
| BoardSymmetry.IdentityPasses | boarddata.hh:315-325 | the identity side permutation passes validation and yields the identity table |
| BoardSymmetry.FirstEvisceration | boarddata.hh:298-306 | the first evisceration is the identity |
| BoardSymmetry.EviscerationIsBijection | boarddata.hh:308-313 | each evisceration maps the board one-to-one onto itself |
| BoardSymmetry.AllEviscerationsMembers | boarddata.hh:298-306 | every kept evisceration comes from a side permutation that passes validation |
| BoardSymmetry.AllEviscerationsComplete | boarddata.hh:298-306 | every side permutation that passes validation contributes its table |
| BoardSymmetry.AllEviscerationsExactly | boarddata.hh:298-306 | a table is kept iff it is the table of an enumerated side permutation that passes validation |
| BoardSymmetry.EviscerationsAreBijections | boarddata.hh:298-306 | every evisceration is a one-to-one table |
| BoardSymmetry.Writes | boarddata.hh:283-296 | the inner write loop fills a table of board size; `BoardSymmetry.InverseTableInverts` states what the filled table undoes |
| BoardSymmetry.InverseTable | boarddata.hh:283-296 | the product table has board size; `BoardSymmetry.InverseTableInverts` states that it undoes rotation after evisceration |
| BoardSymmetry.InverseTableInverts | boarddata.hh:288-290 | the product undoes rotation after evisceration: s[r[e[i]]] == i |
| BoardSymmetry.InverseOfIdentity | boarddata.hh:283-296 | the product of two identities is the identity |
| BoardSymmetry.RowMembers | boarddata.hh:283-296 | one rotation's products are exactly its products with each evisceration |
| BoardSymmetry.ProductsMembers | boarddata.hh:283-296 | the products are exactly those of every pair |
| BoardSymmetry.ProductFacts | boarddata.hh:283-296 | every symmetry is a table, the identity is one, and each undoes some rotation∘evisceration |
| BoardSymmetry.Symmetry.constructor | boarddata.hh:269-274 | construction builds rotations, eviscerations and the sorted, duplicate-free product set |
| BoardSymmetry.Symmetry.GenerateRotation | boarddata.hh:342-357 | the table is the specified rotation |
| BoardSymmetry.Symmetry.RotateCell | boarddata.hh:345-353 | one cell's image is the most-significant-first code of the reflected, permuted digits |
| BoardSymmetry.Symmetry.GenerateRotationsOf | boarddata.hh:336-338 | appends the 2^D rotations of one axis order |
| BoardSymmetry.Symmetry.GenerateAllRotations | boarddata.hh:332-340 | the rotations are all axis orders × masks, one-to-one, identity included |
| BoardSymmetry.Symmetry.SearchLine | boarddata.hh:327-330 | true iff the transformed line is a winning line |
| BoardSymmetry.Symmetry.ImageIsLine | boarddata.hh:317-322 | true iff the sorted image of one line is a winning line |
| BoardSymmetry.Symmetry.ValidateEvisceration | boarddata.hh:315-325 | true iff every line's image is a winning line |
| BoardSymmetry.Symmetry.GenerateEvisceration | boarddata.hh:308-313 | appends the permutation's table |
| BoardSymmetry.Symmetry.ConsiderEvisceration | boarddata.hh:302-304 | one loop step appends the table iff the permutation validates |
| BoardSymmetry.Symmetry.GenerateAllEviscerations | boarddata.hh:298-306 | the eviscerations are exactly the validated side permutations in enumeration order, the identity first |
| BoardSymmetry.Symmetry.ComposeInverse | boarddata.hh:287-290 | the product table of one rotation and one evisceration |
| BoardSymmetry.Symmetry.InsertRow | boarddata.hh:286-292 | the set gains exactly one rotation's products |
| BoardSymmetry.Symmetry.ProductSet | boarddata.hh:284-293 | the ordered set holds exactly all products |
| BoardSymmetry.Symmetry.MultiplyGroups | boarddata.hh:283-296 | `_symmetries` is the sorted, duplicate-free set of all products |
| LegacyGeometry.SortEach | tictactoe.cc:51-83 | sorting each line keeps the number of lines; `LegacyGeometry.AllLinesSorted` states that it turns the legacy lines into the sorted ones |
| LegacyGeometry.GenSorted | tictactoe.cc:51-83 | the sorted-line recursion is the unsorted one with each line sorted |
| LegacyGeometry.AllLinesSorted | tictactoe.cc:95-100 | all sorted lines are the unsorted ones, each sorted afterwards |
| LegacyGeometry.LegacyAgreesWithBoardData | tictactoe.cc:95-100 | sorting each legacy line and then the list gives the newer geometry's lines |
| LegacyGeometry.LegacyLinesFacts | tictactoe.cc:95-100 | the unsorted list has ((N+2)^D − N^D)/2 lines, each of N distinct cells below N^D |
| LegacyGeometry.LegacyLinesDistinct | tictactoe.cc:95-100 | for N ≥ 2, the unsorted list has no line twice |
| LegacyGeometry.Geometry.constructor | tictactoe.cc:25-30 | construction leaves every table as its specification says |
| LegacyGeometry.Geometry.FillTerrain | tictactoe.cc:31-44 | appends exactly the kept completions of the terrain prefix |
| LegacyGeometry.Geometry.ConstructUniqueTerrains | tictactoe.cc:46-49 | the terrain list is all kept direction vectors of length D |
| LegacyGeometry.Geometry.Encode | tictactoe.cc:85-93 | the code of the digits, below N^D, which decodes back to them |
| LegacyGeometry.Geometry.Decode | tictactoe.cc:102-109 | D digits below N that encode back to the code |
| LegacyGeometry.Geometry.EncodeLine | tictactoe.cc:54-57 | a line's cells are the codes of its columns, not sorted |
| LegacyGeometry.Geometry.GenerateLines | tictactoe.cc:51-83 | appends exactly the unsorted lines the terrain generates |
| LegacyGeometry.Geometry.ConstructWinningLines | tictactoe.cc:95-100 | the lines, in terrain order, unsorted |
| LegacyGeometry.Geometry.ConstructAccumulationPoints | tictactoe.cc:111-117 | accumulation_points[c] is the number of lines through c |
| LegacyGeometry.Geometry.ConstructWinningPositions | tictactoe.cc:163-170 | winning_positions[c] lists exactly the indices of the lines through c, increasing |
| SymmetryTrie.FreshNode | boarddata.hh:415-418 | a new node has the list, and a zero edge and empty mask per position |
| SymmetryTrie.LocalChildMeaning | boarddata.hh:457-462 | the child list is the increasing local indices j with symmetries[current[j]][i] == i |
| SymmetryTrie.StabilizerChildMeaning | boarddata.hh:457-462 | the reference child list holds current[j] for the same j |
| SymmetryTrie.StabilizerPathMeaning | boarddata.hh:445-477 | the reference list of a path is exactly the symmetries fixing every step |
| SymmetryTrie.MaskMembers | boarddata.hh:427-436 | a mask is exactly the images of the position under the listed symmetries |
| SymmetryTrie.StabilizerPathMask | boarddata.hh:427-436 | with reference lists, a mask is the orbit of the position under the path's stabilizer |
| SymmetryTrie.AsWrittenLosesSymmetries | boarddata.hh:459-460 | on a three-cell board the stored list after two steps differs from the stabilizer list, and so does its mask |
| SymmetryTrie.ThreeCellsFirstStep | boarddata.hh:459-460 | on the three-cell list, one step along cell 1 keeps symmetries 0 and 5 under both rules |
| SymmetryTrie.ChildrenAgreeOnIdentity | boarddata.hh:457-462 | where entry k of the list is symmetry k, the stored and the stabilizer child lists are equal |
| SymmetryTrie.FirstStepAgrees | boarddata.hh:445-462 | for every list of symmetries, one step from the root gives the same list under both rules |
| SymmetryTrie.IncreasingListed | boarddata.hh:451-476 | every increasing list is among the finitely many lists, which bounds the breadth-first pass |
| SymmetryTrie.SetNext | boarddata.hh:470-473 | writing one edge changes that edge only |
| SymmetryTrie.SetMask | boarddata.hh:430-433 | writing one mask changes that mask only |
| SymmetryTrie.SymmetryTables | boarddata.hh:383-386 | a built symmetry object's symmetries are tables of board size |
| SymmetryTrie.SymmeTrie.constructor | boarddata.hh:383-386 | construction builds the trie and its masks |
| SymmetryTrie.SymmeTrie.Similar | boarddata.hh:391-393 | a node's list is increasing, the root's is every symmetry, and no other node has the same list |
| SymmetryTrie.SymmeTrie.Next | boarddata.hh:395-397 | an edge leads to a node, and that node carries the child list |
| SymmetryTrie.SymmeTrie.Mask | boarddata.hh:399-401 | the mask is exactly the images of pos under the node's listed symmetries |
| SymmetryTrie.SymmeTrie.Walk | boarddata.hh:395-397 | following edges from the root always reaches a node |
| SymmetryTrie.SymmeTrie.WalkList | boarddata.hh:445-477 | the node a path reaches carries the path's local-index list |
| SymmetryTrie.SymmeTrie.ChildList | boarddata.hh:457-462 | the loop builds exactly the local-index child list |
| SymmetryTrie.SymmeTrie.FindNode | boarddata.hh:463-465 | the search finds the first node with the list, or reports none |
| SymmetryTrie.SymmeTrie.AddNode | boarddata.hh:466-469 | a new node is appended, keeping the lists distinct |
| SymmetryTrie.SymmeTrie.SetEdge | boarddata.hh:470-473 | the edge is written and nothing else changes |
| SymmetryTrie.SymmeTrie.Expand | boarddata.hh:456-475 | one position's step gives the node its edge and keeps the queue and the earlier edges |
| SymmetryTrie.SymmeTrie.ConstructTrie | boarddata.hh:445-477 | the graph: root list 0..\|symmetries\|−1, distinct lists, every edge valid and carrying the child list |
| SymmetryTrie.SymmeTrie.OrbitBits | boarddata.hh:430-433 | the bits are exactly the images of pos under the listed symmetries |
| SymmetryTrie.SymmeTrie.MaskNode | boarddata.hh:429-434 | one node's masks are set and nothing else changes |
| SymmetryTrie.SymmeTrie.ConstructMask | boarddata.hh:427-436 | every mask is its position's orbit under the node's list, and the graph is unchanged |
| Strategies.MarkIndex | tictactoe.hh:226 | `win_counts` has a slot for each of the three marks |
| Strategies.MarkIndexInjective | tictactoe.hh:226 | distinct marks count in distinct slots |
| Strategies.OrElseFirstSuccess | tictactoe.hh:19-25 | `a \|\| f` is a when a has a value, without calling f, and f() otherwise |
| Strategies.OrElseMonoid | tictactoe.hh:19-25 | `\|\|` is associative and has none as identity |
| Strategies.CombineLaws | tictactoe.hh:140-157 | `>>` proposes a's move when a has one, else b's, and is associative with the never-strategy as identity |
| Strategies.FirstCompletionMeaning | tictactoe.hh:44-59 | the scan returns the XOR cell of the first line with N−1 own, 0 opponent and an open missing cell, and none iff no line qualifies |
| Strategies.FindForcingMove | tictactoe.hh:44-59 | the loop returns the first completing line's cell |
| Strategies.ForcingMoveChoose | tictactoe.hh:61-68 | the strategy returns the specified forcing move |
| Strategies.ForcingMoveMeaning | tictactoe.hh:61-68 | the mover's own completion comes first, the opponent's block only when there is none, and the result is open |
| Strategies.FirstForkMeaning | tictactoe.hh:83-98 | the scan returns the first open position, in open order, with a crossing pair of two N−2/0 lines, and none iff there is none |
| Strategies.HasFork | tictactoe.hh:88-93 | the inner loop finds a double-threat crossing pair iff one exists |
| Strategies.FindFork | tictactoe.hh:83-98 | the loop returns the first forking open position |
| Strategies.ForcingStrategyChoose | tictactoe.hh:100-107 | the strategy returns the specified double threat |
| Strategies.ForcingStrategyMeaning | tictactoe.hh:100-107 | the own fork comes first, the result is open, and none iff neither side has a fork |
| Strategies.TotalMonotone | tictactoe.hh:128-135 | running totals only grow along the open list |
| Strategies.SumAccumulation | tictactoe.hh:122-125 | total is the sum of the open positions' accumulation |
| Strategies.PickOpen | tictactoe.hh:128-135 | the pick is an open position, with positive accumulation for a draw ≥ 0 |
| Strategies.BiasedRandom | tictactoe.hh:121-137 | for a draw in [0, total) returns the first open position whose running sum exceeds the draw; it is open and has positive weight |
| Strategies.CountBound | tictactoe.hh:216-227 | no mark wins more trials than there are |
| Strategies.ScoreBounds | tictactoe.hh:228-229 | the score lies in [−trials, trials], is antisymmetric, and is trials when every trial is won |
| Strategies.AllWon | tictactoe.hh:216-227 | when every trial is won by mark, the opponent has none |
| Strategies.FirstMaxUnique | tictactoe.hh:187-188 | the first maximal index is unique |
| Strategies.MaxElement | tictactoe.hh:187 | `max_element` returns a maximal index that is the first on ties |
| Strategies.CombineProposesOpen | tictactoe.hh:140-157 | chaining strategies that propose open positions proposes open positions |
| Strategies.ForcingChainOpen | tictactoe.hh:286-289 | `ForcingMove >> ForcingStrategy` proposes only open positions |
| Strategies.StrategiesProposeOpen | tictactoe.hh:221-223 | every playout strategy component proposes only open positions |
| Strategies.ForcingChainQuiet | tictactoe.hh:286-289 | with no marks on the board and N ≥ 3 the forcing chain proposes nothing |
| Engine.RunFuel | tictactoe.hh:375-396 | a finished game keeps its outcome and state when more turns are allowed |
| Engine.RunWinner | tictactoe.hh:375-396 | the outcome is none (unfinished), empty, the start mark or its flip |
| Engine.RunTerminates | tictactoe.hh:375-396 | when plays shrink the state and the strategy always proposes, the loop ends within size + 1 turns |
| Engine.GameEngine.constructor | tictactoe.hh:364-371 | the engine holds the rules, the state and the strategy |
| Engine.GameEngine.Play | tictactoe.hh:375-396 | the loop's outcome and new state are those of the turn-by-turn game: empty when nothing is open, the mover on a win, flip every turn |
| Engine.Winners | tictactoe.hh:217-227 | one outcome per trial; `Engine.MonteCarlo` states that the score counts them |
| Engine.Trial | tictactoe.hh:218-225 | one trial plays pos and then the chained playout from flipped |
| Engine.MonteCarlo | tictactoe.hh:215-230 | the result is wins of mark minus wins of flipped over the trials |
| Engine.Tally | tictactoe.hh:226 | one increment adds the trial's winner to its slot only |
| Engine.HeatScores | tictactoe.hh:191-199 | one score per open position; `Engine.HeatScoresBounded` bounds each score and `Engine.GetScores` computes them |
| Engine.HeatScoresBounded | tictactoe.hh:215-230 | every score lies in [−trials, trials] |
| Engine.GetScores | tictactoe.hh:191-199 | each open position's Monte-Carlo score, in open order |
| Engine.HeatMapChoose | tictactoe.hh:180-189 | returns the open position with the highest score, the first on ties |
| Solver.PairGeTotal | tictactoe.hh:315 | descending (score, position) is a total order |
| Solver.OrderMeaning | tictactoe.hh:302-316 | under 7 open, the candidates are the open order; otherwise they are sorted by descending (score, position) from the paired list; they are always the open positions |
| Solver.MiniMax.constructor | tictactoe.hh:255-261 | the solver holds its inputs and has visited no node |
| Solver.MiniMax.Play | tictactoe.hh:273-277 | the top call's result is the value with parent flip(mark) |
| Solver.MiniMax.PlayNode | tictactoe.hh:279-345 | the recursion's result is the specified node value, and nodes_visited grows |
| Solver.MiniMax.CandidateList | tictactoe.hh:302-316 | the candidates are the ordered open positions, scored on the member state |
| Solver.MiniMax.ScanCandidates | tictactoe.hh:317-344 | the loop returns mark on a win or a child mark, empty on a child draw when parent is empty, else the best so far |
| Solver.MiniMax.ValueRange | tictactoe.hh:279-345 | the value is mark, empty or flip(mark) |
| Solver.MiniMax.ScanRange | tictactoe.hh:317-344 | the scan returns mark, empty or the best so far |
| Solver.MiniMax.ValueExact | tictactoe.hh:279-345 | with a quiet forcing chain the value is the true game value; with an empty parent the early draw cut-off may report empty where mark wins, and nothing else |
| Solver.MiniMax.SettledGameValue | tictactoe.hh:317-344 | the full scan of all candidates settles on the true game value |
| Solver.MiniMax.SameMoves | tictactoe.hh:302-316 | reordering the candidates does not change which values some move reaches |
| Solver.MiniMax.ScanExact | tictactoe.hh:317-344 | each scan step agrees with the true value, up to the draw cut-off |
| Solver.MiniMax.EmptyBoardExact | tictactoe.hh:273-345 | from an empty member board with N ≥ 3 the solver returns the true game value |

## Left out

- Printing is not modelled: `print`, `print_line`, `print_points`, `print_symmetry`, `SymmeTrie::print`, `HeatMap::print`, `report_progress`, every `cout`, and `main` in tictactoe.cc. All of it is terminal output.
- The `rank` vector of `MiniMax::play` is left out; it is pushed and popped only for progress output.
- Solver.MiniMax.PlayNode: `nodes_visited` is only stated to grow, not counted exactly, because it only feeds progress output.
- `HeatMap::get_scores` runs its `transform` under `par_unseq` with a shared generator. The model scores positions one after another.
- `HeatMap::normalize_score` uses `double` arithmetic and only feeds printing.
- `default_random_engine` and `uniform_int_distribution` are replaced by draw parameters. `BiasedRandom` takes the drawn integer, and the heat map's playouts read an oracle keyed by the index of the scored position in the open list, the trial, the state reached and the mover; the solver takes one such oracle per node.
- Strategies.BiasedRandom requires total > 0. With total == 0 the source builds `uniform_int_distribution(0, -1)` and then reaches `assert(false)`, which is undefined behaviour; `Strategies.Pick` returns none there.
- Engine.HeatMapChoose requires at least one open position. With none, the source dereferences `max_element` of an empty vector.
- `state.hh` is not part of this model. `State`, `Bitfield`, `crossings()`, `flip`, `get_open_positions` and `State::play` are abstract `Rules` and `View` inputs, and their behaviour is not invented.
- `BoardData` only forwards to the geometry, symmetry and trie getters (boarddata.hh:483-531). Those getters are modelled on the classes themselves.
- Engine.GameEngine.Play takes a fuel bound and returns none when it runs out. The source's `while (true)` has no bound. `Engine.RunTerminates` shows that enough fuel always gives a result when plays shrink the state. An unfinished playout counts as nobody's win in `Engine.Winner`.
- The pre- and post-observer callbacks of `GameEngine::play` only print, so the model has the one-argument form.
- Solver.MiniMax.ValueExact is proved only when the forcing chain on the member state does not fire (`Quiet`). The source builds that chain over the member `state` and not `current_state` (tictactoe.hh:286-288), and the model keeps this. The chain is given the node's open positions (tictactoe.hh:281, 289), so its proposal is open at the node (`Strategies.ForcingChainOpen`). But it reads the line counts of the member `state`, so on a board with marks the proposed move need not be forcing at the node. The forcing branch then plays only that move and scans no other candidate (tictactoe.hh:290-301), so no exactness is claimed.
- Lines.WinningLinesDistinct and LegacyGeometry.LegacyLinesDistinct require N ≥ 2. For N = 1 every line is the single cell 0, so the lines of different terrains coincide; no distinctness is promised there.
- Fixed-width `int` arithmetic is not modelled. The model uses unbounded `nat` and `int` for `Position` and `Code` values, `factor *= N` (boarddata.hh:205-208, tictactoe.cc:87-91), `1 << D` (boarddata.hh:336), `pow(N + 2, D)` in `line_size` (boarddata.hh:64-65) and `int total` (tictactoe.hh:122). None of these values exceeds (N+2)^D = 2·line_size + board_size or N·line_size, the number of cell entries in the line table. So a 32-bit overflow needs tables with hundreds of millions of entries.
- `MiniMax::play` returns an `optional<Mark>` that always holds a value, so the model returns a `Mark`.
- The stub `MiniMax::operator()` and the `Strategy` concept are left out. The stub always returns none; the concept is a compile-time check.
- `semantic.hh` is left out: its strong typedefs are plain `nat` values here. `dumper.py` is also left out: it is a log-to-HTML tool.
- The floating-point `pow` of tictactoe.cc is the integer power `Digits.Pow`.
- The `encode_points` of tictactoe.cc (158-161) is the same mapping as in boarddata.hh, so both share `BoardGeometry.EncodePoints`. Its argument is a count, so it is a `nat`; a negative `int` is never passed.
- The numbering of trie nodes is proved only as far as the contracts go: distinct lists, valid edges, the root first. The exact breadth-first order is not stated.
