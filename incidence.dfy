/**
 * What the geometry derives from the list of winning lines: the number of
 * lines through each cell (boarddata.hh 222-228, tictactoe.cc 111-117), the
 * indices of those lines (boarddata.hh 235-241, tictactoe.cc 163-170) and the
 * XOR of each line's positions (boarddata.hh 243-251).
 */
module Incidence {
  import opened Sorting

  /** The indices of the lines that contain p, in increasing order. */
  function LinesThrough(lines: seq<seq<nat>>, p: nat): seq<nat>
  {
    if lines == [] then []
    else LinesThrough(lines[..|lines| - 1], p) + (if p in lines[|lines| - 1] then [|lines| - 1] else [])
  }

  /** The number of lines that contain p. */
  function CountThrough(lines: seq<seq<nat>>, p: nat): nat
  {
    if lines == [] then 0
    else CountThrough(lines[..|lines| - 1], p) + (if p in lines[|lines| - 1] then 1 else 0)
  }

  /** The set of indices of lines containing p. */
  function IndexSet(lines: seq<seq<nat>>, p: nat): set<nat>
  {
    set i | 0 <= i < |lines| && p in lines[i]
  }

  /** `lines_through_position[p]` lists exactly the lines through p. */
  lemma {:induction false} LinesThroughMembers(lines: seq<seq<nat>>, p: nat, i: nat)
    ensures i in LinesThrough(lines, p) <==> i < |lines| && p in lines[i]
  {
    if lines != [] {
      var m := |lines| - 1;
      LinesThroughMembers(lines[..m], p, i);
      if i < m {
        assert lines[..m][i] == lines[i];
      }
    }
  }

  lemma {:induction false} LinesThroughBound(lines: seq<seq<nat>>, p: nat)
    ensures forall i :: i in LinesThrough(lines, p) ==> i < |lines|
  {
    forall i | i in LinesThrough(lines, p) ensures i < |lines| {
      LinesThroughMembers(lines, p, i);
    }
  }

  /** … and in strictly increasing order, hence without repetition. */
  lemma {:induction false} LinesThroughIncreasing(lines: seq<seq<nat>>, p: nat)
    ensures StrictlyIncreasing(LinesThrough(lines, p))
  {
    if lines != [] {
      var m := |lines| - 1;
      LinesThroughIncreasing(lines[..m], p);
      LinesThroughBound(lines[..m], p);
      var s := LinesThrough(lines[..m], p);
      forall k | 0 <= k < |s| ensures s[k] < m {
        assert s[k] in s;
      }
    }
  }

  /** `accumulation_points[p]` is the length of `lines_through_position[p]`. */
  lemma {:induction false} CountThroughLength(lines: seq<seq<nat>>, p: nat)
    ensures CountThrough(lines, p) == |LinesThrough(lines, p)|
  {
    if lines != [] {
      CountThroughLength(lines[..|lines| - 1], p);
    }
  }

  /** `accumulation_points[p]` is the number of lines containing p. */
  lemma {:induction false} CountThroughCardinality(lines: seq<seq<nat>>, p: nat)
    ensures CountThrough(lines, p) == |IndexSet(lines, p)|
  {
    if lines != [] {
      var m := |lines| - 1;
      CountThroughCardinality(lines[..m], p);
      var before := IndexSet(lines[..m], p);
      assert m !in before;
      if p in lines[m] {
        assert IndexSet(lines, p) == before + {m} by {
          forall i | i in IndexSet(lines, p) ensures i in before + {m} {
            if i < m { assert lines[..m][i] == lines[i]; }
          }
          forall i | i in before ensures i in IndexSet(lines, p) {
            assert lines[..m][i] == lines[i];
          }
        }
      } else {
        assert IndexSet(lines, p) == before by {
          forall i | i in IndexSet(lines, p) ensures i in before {
            assert i != m;
            assert lines[..m][i] == lines[i];
          }
          forall i | i in before ensures i in IndexSet(lines, p) {
            assert lines[..m][i] == lines[i];
          }
        }
      }
    }
  }

  /** Every line index appears in the list of each of its positions. */
  lemma LinesThroughTotal(lines: seq<seq<nat>>)
    ensures forall i, p :: 0 <= i < |lines| && p in lines[i] ==> i in LinesThrough(lines, p)
  {
    forall i, p | 0 <= i < |lines| && p in lines[i] ensures i in LinesThrough(lines, p) {
      LinesThroughMembers(lines, p, i);
    }
  }

  // ----- bitwise exclusive or on naturals -----

  /** a ^ b, bit by bit from the least significant bit. */
  function Xor(a: nat, b: nat): nat
    decreases a + b
  {
    if a == 0 then b
    else if b == 0 then a
    else 2 * Xor(a / 2, b / 2) + (if a % 2 == b % 2 then 0 else 1)
  }

  /** The low bit of a ^ b and the bits above it. */
  lemma XorBits(a: nat, b: nat)
    ensures Xor(a, b) % 2 == (a % 2 + b % 2) % 2
    ensures Xor(a, b) / 2 == Xor(a / 2, b / 2)
  {
  }

  /** A natural is determined by its low bit and the bits above it. */
  lemma BitsDetermine(x: nat, y: nat)
    requires x % 2 == y % 2 && x / 2 == y / 2
    ensures x == y
  {
  }

  lemma {:induction false} XorSelf(a: nat)
    ensures Xor(a, a) == 0
  {
    if a != 0 {
      XorSelf(a / 2);
    }
  }

  lemma {:induction false} XorCommutes(a: nat, b: nat)
    ensures Xor(a, b) == Xor(b, a)
    decreases a + b
  {
    if a != 0 && b != 0 {
      XorCommutes(a / 2, b / 2);
    }
  }

  lemma {:induction false} XorAssociates(a: nat, b: nat, c: nat)
    ensures Xor(Xor(a, b), c) == Xor(a, Xor(b, c))
    decreases a + b + c
  {
    if a + b + c != 0 {
      XorBits(a, b);
      XorBits(Xor(a, b), c);
      XorBits(b, c);
      XorBits(a, Xor(b, c));
      XorAssociates(a / 2, b / 2, c / 2);
      BitsDetermine(Xor(Xor(a, b), c), Xor(a, Xor(b, c)));
    }
  }

  /** `accumulate(line, 0, ^)`: the XOR of all positions, left to right. */
  function XorAll(s: seq<nat>): nat
  {
    if s == [] then 0 else Xor(XorAll(s[..|s| - 1]), s[|s| - 1])
  }

  lemma {:induction false} XorAllAppend(a: seq<nat>, b: seq<nat>)
    ensures XorAll(a + b) == Xor(XorAll(a), XorAll(b))
    decreases |b|
  {
    if b == [] {
      assert a + b == a;
    } else {
      var m := |b| - 1;
      assert (a + b)[..|a + b| - 1] == a + b[..m];
      XorAllAppend(a, b[..m]);
      XorAssociates(XorAll(a), XorAll(b[..m]), b[m]);
    }
  }

  /** (x1 ^ c) ^ x2 combined with x1 ^ x2 leaves c. */
  lemma XorCancel(x1: nat, x2: nat, c: nat)
    ensures Xor(Xor(Xor(x1, c), x2), Xor(x1, x2)) == c
  {
    calc {
      Xor(Xor(Xor(x1, c), x2), Xor(x1, x2));
      { XorAssociates(x1, c, x2); XorCommutes(c, x2); XorAssociates(x1, x2, c); }
      Xor(Xor(Xor(x1, x2), c), Xor(x1, x2));
      { XorCommutes(Xor(Xor(x1, x2), c), Xor(x1, x2)); }
      Xor(Xor(x1, x2), Xor(Xor(x1, x2), c));
      { XorAssociates(Xor(x1, x2), Xor(x1, x2), c); XorSelf(Xor(x1, x2)); }
      Xor(0, c);
    }
  }

  /** The XOR of a single element is that element. */
  lemma XorAllSingle(c: nat)
    ensures XorAll([c]) == c
  {
    assert [c][..0] == [];
  }

  /**
   * The missing cell of a line is the line's XOR combined with the XOR of its
   * other cells: what lets a forcing move be read off the table.
   */
  lemma XorRecoversCell(line: seq<nat>, k: nat)
    requires k < |line|
    ensures Xor(XorAll(line), XorAll(line[..k] + line[k + 1..])) == line[k]
  {
    assert line == line[..k] + [line[k]] + line[k + 1..];
    XorRecoversMiddle(line[..k], line[k], line[k + 1..]);
  }

  lemma XorRecoversMiddle(a: seq<nat>, c: nat, b: seq<nat>)
    ensures Xor(XorAll(a + [c] + b), XorAll(a + b)) == c
  {
    var x1, x2 := XorAll(a), XorAll(b);
    XorAllAppend(a, [c]);
    XorAllSingle(c);
    assert XorAll(a + [c]) == Xor(x1, c);
    XorAllAppend(a + [c], b);
    assert XorAll(a + [c] + b) == Xor(Xor(x1, c), x2);
    XorAllAppend(a, b);
    XorCancel(x1, x2, c);
  }
}
