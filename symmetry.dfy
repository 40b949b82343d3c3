/**
 * The symmetry group of boarddata.hh (`Symmetry<N, D>`, lines 266-378):
 * rotations (axis order and reflections), eviscerations (maps of side values
 * that send lines to lines) and the set of inverses of their products.
 * A symmetry is a table of board_size positions.
 */
module BoardSymmetry {
  import opened Digits
  import opened Sorting
  import opened Permutations
  import opened Lines
  import opened BoardGeometry

  /** A map of the board to itself, as a table of b positions below b. */
  predicate Table(t: seq<nat>, b: nat)
  {
    |t| == b && forall i :: 0 <= i < b ==> t[i] < b
  }

  /** An axis order: each entry names one of the d axes. */
  predicate AxesBelow(index: seq<nat>, d: nat)
  {
    forall k :: 0 <= k < |index| ==> index[k] < d
  }

  // ----- rotations -----

  /** `bits >> k`. */
  function Shift(bits: nat, k: nat): nat
  {
    if k == 0 then bits else Shift(bits, k - 1) / 2
  }

  /** Bit k of bits: `(bits >> k) & 1`. */
  function Bit(bits: nat, k: nat): nat
  {
    Shift(bits, k) % 2
  }

  /** A coordinate kept (bit 0) or mirrored (bit 1). */
  function Reflect(n: nat, bit: nat, column: nat): nat
    requires column < n
  {
    if bit == 0 then column else n - column - 1
  }

  /** The new coordinates of a cell: axis index[k] of the cell, reflected by bit k. */
  function RotationDigits(n: nat, index: seq<nat>, bits: nat, digits: seq<nat>): (r: seq<nat>)
    requires AxesBelow(index, |digits|) && DigitsBelow(digits, n)
    ensures |r| == |index|
  {
    seq(|index|, k requires 0 <= k < |index| => Reflect(n, Bit(bits, k), digits[index[k]]))
  }

  /** One step of the inner loop of `generate_rotation`: the next digit joins the encoding. */
  lemma RotateCellStep(n: nat, index: seq<nat>, bits: nat, digits: seq<nat>, k: nat, acc: nat)
    requires AxesBelow(index, |digits|) && DigitsBelow(digits, n) && k < |index|
    requires acc == MsbEncode(n, RotationDigits(n, index, bits, digits)[..k])
    ensures acc * n + Reflect(n, Shift(bits, k) % 2, digits[index[k]]) ==
      MsbEncode(n, RotationDigits(n, index, bits, digits)[..k + 1])
  {
    var rd := RotationDigits(n, index, bits, digits);
    assert rd[..k + 1][..k] == rd[..k];
  }

  /**
   * `generate_rotation(index, bits)`: cell i goes to the cell whose digits,
   * most significant first, are its rotated coordinates.
   */
  function Rotation(n: nat, d: nat, index: seq<nat>, bits: nat): (r: seq<nat>)
    requires n >= 1 && AxesBelow(index, d)
    ensures |r| == Pow(n, d)
  {
    seq(Pow(n, d), i requires 0 <= i => MsbEncode(n, RotationDigits(n, index, bits, Decode(n, d, i))))
  }

  /** The rotations for one axis order and all bits below b, in order. */
  function RotationsOf(n: nat, d: nat, index: seq<nat>, b: nat): (r: seq<seq<nat>>)
    requires n >= 1 && AxesBelow(index, d)
    ensures |r| == b
  {
    if b == 0 then [] else RotationsOf(n, d, index, b - 1) + [Rotation(n, d, index, b - 1)]
  }

  /** `generate_all_rotations` over the axis orders ps, each with its 2^d reflection patterns. */
  function AllRotations(n: nat, d: nat, ps: seq<seq<nat>>): seq<seq<nat>>
    requires n >= 1 && forall p :: p in ps ==> AxesBelow(p, d)
  {
    if ps == [] then []
    else AllRotations(n, d, ps[..|ps| - 1]) + RotationsOf(n, d, ps[|ps| - 1], Pow(2, d))
  }

  lemma AllRotationsSnoc(n: nat, d: nat, ps: seq<seq<nat>>, k: nat)
    requires n >= 1 && k < |ps| && forall p :: p in ps ==> AxesBelow(p, d)
    ensures forall p :: p in ps[..k] ==> AxesBelow(p, d)
    ensures forall p :: p in ps[..k + 1] ==> AxesBelow(p, d)
    ensures AllRotations(n, d, ps[..k + 1]) == AllRotations(n, d, ps[..k]) + RotationsOf(n, d, ps[k], Pow(2, d))
  {
    assert forall p :: p in ps[..k + 1] ==> p in ps;
    assert ps[..k + 1][..k] == ps[..k];
  }

  /** The axis orders visited: the arrangements of 0 .. d-1. */
  lemma ArrangementsBelow(k: nat, p: seq<nat>)
    requires p in Perms(Range(k))
    ensures AxesBelow(p, k) && NoDuplicates(p) && |p| == k
  {
    PermsAreArrangements(Range(k), p);
    assert |p| == k by {
      assert |multiset(p)| == |multiset(Range(k))|;
    }
    forall i | 0 <= i < |p| ensures p[i] < k {
      assert p[i] in multiset(p);
      assert p[i] in Range(k);
    }
    RangeNoDuplicates(k);
    NoDuplicatesPermutation(Range(k), p);
  }

  /** The axis orders `generate_all_rotations` visits, starting from `iota`. */
  function AxisOrders(d: nat): (ps: seq<seq<nat>>)
    ensures forall p :: p in ps ==> AxesBelow(p, d) && NoDuplicates(p) && |p| == d
  {
    assert forall p :: p in Perms(Range(d)) ==> AxesBelow(p, d) && NoDuplicates(p) && |p| == d by {
      forall p | p in Perms(Range(d)) ensures AxesBelow(p, d) && NoDuplicates(p) && |p| == d {
        ArrangementsBelow(d, p);
      }
    }
    Perms(Range(d))
  }

  lemma ReflectInjective(n: nat, bit: nat, x: nat, y: nat)
    requires x < n && y < n && Reflect(n, bit, x) == Reflect(n, bit, y)
    ensures x == y
  {
  }

  /** Two cells with the same rotated coordinates have the same coordinates. */
  lemma RotationDigitsInjective(n: nat, d: nat, index: seq<nat>, bits: nat, x: seq<nat>, y: seq<nat>)
    requires index in Perms(Range(d)) && AxesBelow(index, d)
    requires |x| == d && |y| == d && DigitsBelow(x, n) && DigitsBelow(y, n)
    requires RotationDigits(n, index, bits, x) == RotationDigits(n, index, bits, y)
    ensures x == y
  {
    PermsAreArrangements(Range(d), index);
    forall m | 0 <= m < d ensures x[m] == y[m] {
      assert Range(d)[m] == m;
      assert m in multiset(Range(d));
      assert m in multiset(index);
      var k := IndexOf(index, m);
      assert RotationDigits(n, index, bits, x)[k] == RotationDigits(n, index, bits, y)[k];
      ReflectInjective(n, Bit(bits, k), x[m], y[m]);
    }
  }

  lemma RotationInjectiveAt(n: nat, d: nat, index: seq<nat>, bits: nat, i: nat, j: nat)
    requires n >= 1 && index in Perms(Range(d)) && AxesBelow(index, d) && |index| == d
    requires i < Pow(n, d) && j < Pow(n, d)
    requires Rotation(n, d, index, bits)[i] == Rotation(n, d, index, bits)[j]
    ensures i == j
  {
    var x, y := Decode(n, d, i), Decode(n, d, j);
    var rx, ry := RotationDigits(n, index, bits, x), RotationDigits(n, index, bits, y);
    assert DigitsBelow(rx, n) && DigitsBelow(ry, n);
    MsbEncodeInjective(n, rx, ry);
    RotationDigitsInjective(n, d, index, bits, x, y);
    DecodeInjective(n, d, i, j);
  }

  /** A rotation whose axis order is an arrangement of the axes maps the board one-to-one onto itself. */
  lemma RotationIsBijection(n: nat, d: nat, index: seq<nat>, bits: nat)
    requires n >= 1 && index in Perms(Range(d))
    ensures AxesBelow(index, d)
    ensures Table(Rotation(n, d, index, bits), Pow(n, d))
    ensures NoDuplicates(Rotation(n, d, index, bits))
  {
    ArrangementsBelow(d, index);
    var r := Rotation(n, d, index, bits);
    forall i | 0 <= i < Pow(n, d) ensures r[i] < Pow(n, d) {
      var rx := RotationDigits(n, index, bits, Decode(n, d, i));
      assert DigitsBelow(rx, n);
      MsbEncodeBound(n, rx);
    }
    forall i, j | 0 <= i < j < |r| ensures r[i] != r[j] {
      if r[i] == r[j] {
        RotationInjectiveAt(n, d, index, bits, i, j);
      }
    }
  }

  lemma ReverseTwice(x: seq<nat>)
    ensures Reverse(Reverse(x)) == x
  {
  }

  lemma {:induction false} ReverseMultiset(x: seq<nat>)
    ensures multiset(Reverse(x)) == multiset(x)
  {
    if x != [] {
      var k := |x| - 1;
      ReverseMultiset(x[..k]);
      assert x == x[..k] + [x[k]];
      assert Reverse(x) == [x[k]] + Reverse(x[..k]);
    }
  }

  /** Bit k of 0 is 0. */
  lemma {:induction false} ShiftZero(k: nat)
    ensures Shift(0, k) == 0
  {
    if k > 0 {
      ShiftZero(k - 1);
    }
  }

  lemma RotationIdentityAt(n: nat, d: nat, i: nat)
    requires n >= 1 && i < Pow(n, d) && AxesBelow(Reverse(Range(d)), d)
    ensures Rotation(n, d, Reverse(Range(d)), 0)[i] == i
  {
    var x := Decode(n, d, i);
    var rx := RotationDigits(n, Reverse(Range(d)), 0, x);
    forall k | 0 <= k < d ensures rx[k] == Reverse(x)[k] {
      ShiftZero(k);
    }
    assert rx == Reverse(x);
    assert Rotation(n, d, Reverse(Range(d)), 0)[i] == MsbEncode(n, rx);
    MsbEncodeReversed(n, rx);
    ReverseTwice(x);
    assert MsbEncode(n, rx) == Encode(n, x);
    EncodeDecode(n, d, i);
  }

  /**
   * The rotation with the axes reversed and no reflection is the identity:
   * re-encoding most significant first undoes the reversal.
   */
  lemma RotationIdentity(n: nat, d: nat)
    requires n >= 1
    ensures AxesBelow(Reverse(Range(d)), d)
    ensures Rotation(n, d, Reverse(Range(d)), 0) == Range(Pow(n, d))
  {
    forall i | 0 <= i < Pow(n, d) ensures Rotation(n, d, Reverse(Range(d)), 0)[i] == i {
      RotationIdentityAt(n, d, i);
    }
  }

  /** The reversed axis order is one of the orders the enumeration visits. */
  lemma ReversedAxesVisited(d: nat)
    ensures Reverse(Range(d)) in Perms(Range(d))
  {
    ReverseMultiset(Range(d));
    RangeNoDuplicates(d);
    PermsComplete(Range(d), Reverse(Range(d)));
  }

  lemma {:induction false} RotationsOfMembers(n: nat, d: nat, index: seq<nat>, b: nat, bits: nat)
    requires n >= 1 && AxesBelow(index, d) && bits < b
    ensures Rotation(n, d, index, bits) in RotationsOf(n, d, index, b)
  {
    if bits < b - 1 {
      RotationsOfMembers(n, d, index, b - 1, bits);
    }
  }

  /** Every table in RotationsOf is a rotation of that axis order. */
  lemma {:induction false} RotationsOfAre(n: nat, d: nat, index: seq<nat>, b: nat, r: seq<nat>)
    requires n >= 1 && AxesBelow(index, d) && r in RotationsOf(n, d, index, b)
    ensures exists bits: nat :: bits < b && r == Rotation(n, d, index, bits)
  {
    if r != Rotation(n, d, index, b - 1) {
      RotationsOfAre(n, d, index, b - 1, r);
    }
  }

  /** The rotations are exactly the tables for a visited axis order and a pattern below 2^d. */
  lemma {:induction false} AllRotationsMembers(n: nat, d: nat, ps: seq<seq<nat>>, r: seq<nat>)
    requires n >= 1 && forall p :: p in ps ==> AxesBelow(p, d)
    ensures r in AllRotations(n, d, ps) <==>
      exists p, bits: nat :: p in ps && bits < Pow(2, d) && r == Rotation(n, d, p, bits)
  {
    if ps != [] {
      var init, last := ps[..|ps| - 1], ps[|ps| - 1];
      assert forall p :: p in init ==> p in ps;
      AllRotationsMembers(n, d, init, r);
      if r in RotationsOf(n, d, last, Pow(2, d)) {
        RotationsOfAre(n, d, last, Pow(2, d), r);
      }
      if exists p, bits: nat :: p in ps && bits < Pow(2, d) && r == Rotation(n, d, p, bits) {
        var p, bits: nat :| p in ps && bits < Pow(2, d) && r == Rotation(n, d, p, bits);
        if p == last {
          RotationsOfMembers(n, d, last, Pow(2, d), bits);
        } else {
          assert p in init;
        }
      }
    }
  }

  // ----- eviscerations -----

  /** The positions of a line, each moved by a map of side values. */
  function PermuteLine(n: nat, d: nat, perm: seq<nat>, line: seq<nat>): (r: seq<nat>)
    requires n >= 1
    ensures |r| == |line|
  {
    seq(|line|, k requires 0 <= k < |line| => PermutePosition(n, d, perm, line[k]))
  }

  /** The image of one line, sorted, is again a line. */
  predicate ImageKnown(n: nat, d: nat, lines: seq<seq<nat>>, perm: seq<nat>, line: seq<nat>)
    requires n >= 1
  {
    Sort<nat>(PermuteLine(n, d, perm, line), NatLe) in lines
  }

  /** `validate_evisceration`: every line's image, sorted, is again a line. */
  predicate ValidEvisceration(n: nat, d: nat, lines: seq<seq<nat>>, perm: seq<nat>)
    requires n >= 1
  {
    forall i :: 0 <= i < |lines| ==> ImageKnown(n, d, lines, perm, lines[i])
  }

  /** `generate_evisceration`: the image of every cell. */
  function EviscerationTable(n: nat, d: nat, perm: seq<nat>): (r: seq<nat>)
    requires n >= 1
    ensures |r| == Pow(n, d)
  {
    PermuteLine(n, d, perm, Range(Pow(n, d)))
  }

  /** `generate_all_eviscerations` over the side maps ps: the tables of those that pass. */
  function AllEviscerations(n: nat, d: nat, lines: seq<seq<nat>>, ps: seq<seq<nat>>): seq<seq<nat>>
    requires n >= 1
  {
    if ps == [] then []
    else
      var last := ps[|ps| - 1];
      AllEviscerations(n, d, lines, ps[..|ps| - 1]) +
      (if ValidEvisceration(n, d, lines, last) then [EviscerationTable(n, d, last)] else [])
  }

  /** The identity side map moves no cell. */
  lemma PermuteIdentity(n: nat, d: nat, pos: nat)
    requires n >= 1 && pos < Pow(n, d)
    ensures PermutePosition(n, d, Range(n), pos) == pos
  {
    var x := Decode(n, d, pos);
    assert PermuteSides(Range(n), x) == x;
    EncodeDecode(n, d, pos);
  }

  /** Lines of N distinct cells of the board, each in ascending order. */
  ghost predicate LinesOk(n: nat, d: nat, lines: seq<seq<nat>>)
  {
    forall i :: 0 <= i < |lines| ==> LineOk(n, d, lines[i], true)
  }

  /** The identity side map, which the enumeration tries first, always passes. */
  lemma IdentityPasses(n: nat, d: nat, lines: seq<seq<nat>>)
    requires n >= 1 && LinesOk(n, d, lines)
    ensures ValidEvisceration(n, d, lines, Range(n))
    ensures EviscerationTable(n, d, Range(n)) == Range(Pow(n, d))
  {
    NatLeTotal();
    forall m | 0 <= m < |lines|
      ensures ImageKnown(n, d, lines, Range(n), lines[m])
    {
      var line := lines[m];
      assert LineOk(n, d, line, true);
      forall k | 0 <= k < |line| ensures PermutePosition(n, d, Range(n), line[k]) == line[k] {
        assert line[k] in line;
        PermuteIdentity(n, d, line[k]);
      }
      assert PermuteLine(n, d, Range(n), line) == line;
      SortOfSorted(line, NatLe);
    }
    forall i | 0 <= i < Pow(n, d) ensures EviscerationTable(n, d, Range(n))[i] == i {
      PermuteIdentity(n, d, i);
    }
  }

  /** The first evisceration is the identity table. */
  lemma FirstEvisceration(n: nat, d: nat, lines: seq<seq<nat>>)
    requires n >= 1 && LinesOk(n, d, lines)
    ensures |AllEviscerations(n, d, lines, Perms(Range(n)))| >= 1
    ensures AllEviscerations(n, d, lines, Perms(Range(n)))[0] == Range(Pow(n, d))
  {
    PermsFirst(Range(n));
    IdentityPasses(n, d, lines);
    EviscerationsPrefix(n, d, lines, Perms(Range(n)), 1);
    assert Perms(Range(n))[..1][..0] == [];
  }

  lemma EviscerationsSnoc(n: nat, d: nat, lines: seq<seq<nat>>, ps: seq<seq<nat>>, k: nat, ok: bool)
    requires n >= 1 && k < |ps| && (ok <==> ValidEvisceration(n, d, lines, ps[k]))
    ensures AllEviscerations(n, d, lines, ps[..k + 1]) == AllEviscerations(n, d, lines, ps[..k]) +
      (if ok then [EviscerationTable(n, d, ps[k])] else [])
  {
    assert ps[..k + 1][..k] == ps[..k];
  }

  lemma {:induction false} EviscerationsPrefix(n: nat, d: nat, lines: seq<seq<nat>>, ps: seq<seq<nat>>, k: nat)
    requires n >= 1 && k <= |ps|
    ensures AllEviscerations(n, d, lines, ps[..k]) <= AllEviscerations(n, d, lines, ps)
    decreases |ps|
  {
    if k < |ps| {
      EviscerationsPrefix(n, d, lines, ps[..|ps| - 1], k);
      assert ps[..|ps| - 1][..k] == ps[..k];
    } else {
      assert ps[..k] == ps;
    }
  }

  /** A side map that rearranges 0 .. n-1 moves the cells one-to-one. */
  lemma EviscerationIsBijection(n: nat, d: nat, perm: seq<nat>)
    requires n >= 1 && perm in Perms(Range(n))
    ensures Table(EviscerationTable(n, d, perm), Pow(n, d))
    ensures NoDuplicates(EviscerationTable(n, d, perm))
  {
    ArrangementsBelow(n, perm);
    var t := EviscerationTable(n, d, perm);
    forall i | 0 <= i < Pow(n, d) ensures t[i] < Pow(n, d) && DigitsBelow(PermuteSides(perm, Decode(n, d, i)), n) {
      var y := PermuteSides(perm, Decode(n, d, i));
      assert DigitsBelow(y, n);
      EncodeBound(n, y);
    }
    forall i, j | 0 <= i < j < |t| ensures t[i] != t[j] {
      if t[i] == t[j] {
        var x, y := Decode(n, d, i), Decode(n, d, j);
        EncodeInjective(n, PermuteSides(perm, x), PermuteSides(perm, y));
        forall m | 0 <= m < d ensures x[m] == y[m] {
          assert PermuteSides(perm, x)[m] == PermuteSides(perm, y)[m];
        }
        DecodeInjective(n, d, i, j);
      }
    }
  }

  // ----- products -----

  /** The symmetry vector after the writes for cells 0 .. k-1: `symmetry[r[e[i]]] = i`. */
  function Writes(b: nat, r: seq<nat>, e: seq<nat>, k: nat): (s: seq<nat>)
    requires Table(r, b) && Table(e, b) && k <= b
    ensures |s| == b
  {
    if k == 0 then seq(b, _ => 0) else Writes(b, r, e, k - 1)[r[e[k - 1]] := k - 1]
  }

  /** The symmetry that `multiply_groups` builds from a rotation and an evisceration. */
  function InverseTable(b: nat, r: seq<nat>, e: seq<nat>): (s: seq<nat>)
    requires Table(r, b) && Table(e, b)
    ensures |s| == b
  {
    Writes(b, r, e, b)
  }

  lemma {:induction false} WritesInvert(b: nat, r: seq<nat>, e: seq<nat>, k: nat)
    requires Table(r, b) && Table(e, b) && NoDuplicates(r) && NoDuplicates(e) && k <= b
    ensures forall i :: 0 <= i < k ==> Writes(b, r, e, k)[r[e[i]]] == i
  {
    if k > 0 {
      WritesInvert(b, r, e, k - 1);
      forall i | 0 <= i < k - 1 ensures r[e[i]] != r[e[k - 1]] {
        assert e[i] != e[k - 1];
      }
    }
  }

  /** The cells written are each below b. */
  lemma {:induction false} WritesTable(b: nat, r: seq<nat>, e: seq<nat>, k: nat)
    requires Table(r, b) && Table(e, b) && k <= b
    ensures forall p :: 0 <= p < b ==> Writes(b, r, e, k)[p] < b
  {
    if k > 0 {
      WritesTable(b, r, e, k - 1);
    }
  }

  lemma InverseIsTable(b: nat, r: seq<nat>, e: seq<nat>)
    requires Table(r, b) && Table(e, b)
    ensures Table(InverseTable(b, r, e), b)
  {
    WritesTable(b, r, e, b);
  }

  /** For one-to-one r and e the result undoes r after e: `symmetry[r[e[i]]] == i`. */
  lemma InverseTableInverts(b: nat, r: seq<nat>, e: seq<nat>)
    requires Table(r, b) && Table(e, b) && NoDuplicates(r) && NoDuplicates(e)
    ensures forall i :: 0 <= i < b ==> InverseTable(b, r, e)[r[e[i]]] == i
  {
    WritesInvert(b, r, e, b);
  }

  /** The inverse of the identity composed with itself is the identity. */
  lemma InverseOfIdentity(b: nat)
    ensures Table(Range(b), b)
    ensures InverseTable(b, Range(b), Range(b)) == Range(b)
  {
    RangeNoDuplicates(b);
    InverseTableInverts(b, Range(b), Range(b));
  }

  predicate AllTables(ts: seq<seq<nat>>, b: nat)
  {
    forall t :: t in ts ==> Table(t, b)
  }

  /** Every symmetry built from rotation r and the evisceration list es, in order. */
  function Row(b: nat, r: seq<nat>, es: seq<seq<nat>>): (s: seq<seq<nat>>)
    requires Table(r, b) && AllTables(es, b)
  {
    if es == [] then [] else Row(b, r, es[..|es| - 1]) + [InverseTable(b, r, es[|es| - 1])]
  }

  /** Every symmetry built from the rotation list rs and the evisceration list es, in loop order. */
  function Products(b: nat, rs: seq<seq<nat>>, es: seq<seq<nat>>): (s: seq<seq<nat>>)
    requires AllTables(rs, b) && AllTables(es, b)
  {
    if rs == [] then [] else Products(b, rs[..|rs| - 1], es) + Row(b, rs[|rs| - 1], es)
  }

  lemma RowSnoc(b: nat, r: seq<nat>, es: seq<seq<nat>>, k: nat)
    requires Table(r, b) && AllTables(es, b) && k < |es|
    ensures AllTables(es[..k], b) && AllTables(es[..k + 1], b)
    ensures Row(b, r, es[..k + 1]) == Row(b, r, es[..k]) + [InverseTable(b, r, es[k])]
  {
    assert forall e :: e in es[..k + 1] ==> e in es;
    assert es[..k + 1][..k] == es[..k];
  }

  lemma ProductsSnoc(b: nat, rs: seq<seq<nat>>, es: seq<seq<nat>>, k: nat)
    requires AllTables(rs, b) && AllTables(es, b) && k < |rs|
    ensures AllTables(rs[..k], b) && AllTables(rs[..k + 1], b)
    ensures Products(b, rs[..k + 1], es) == Products(b, rs[..k], es) + Row(b, rs[k], es)
  {
    assert forall r :: r in rs[..k + 1] ==> r in rs;
    assert rs[..k + 1][..k] == rs[..k];
  }

  lemma {:induction false} RowMembers(b: nat, r: seq<nat>, es: seq<seq<nat>>, s: seq<nat>)
    requires Table(r, b) && AllTables(es, b)
    ensures s in Row(b, r, es) <==> exists e :: e in es && s == InverseTable(b, r, e)
  {
    if es != [] {
      var init := es[..|es| - 1];
      assert forall e :: e in init ==> e in es;
      RowMembers(b, r, init, s);
      if exists e :: e in es && s == InverseTable(b, r, e) {
        var e :| e in es && s == InverseTable(b, r, e);
        if e != es[|es| - 1] {
          assert e in init;
        }
      }
    }
  }

  /** A product is a symmetry made of one rotation and one evisceration. */
  lemma {:induction false} ProductsMembers(b: nat, rs: seq<seq<nat>>, es: seq<seq<nat>>, s: seq<nat>)
    requires AllTables(rs, b) && AllTables(es, b)
    ensures s in Products(b, rs, es) <==>
      exists r, e :: r in rs && e in es && s == InverseTable(b, r, e)
  {
    if rs != [] {
      var init, last := rs[..|rs| - 1], rs[|rs| - 1];
      assert forall r :: r in init ==> r in rs;
      ProductsMembers(b, init, es, s);
      RowMembers(b, last, es, s);
      if exists r, e :: r in rs && e in es && s == InverseTable(b, r, e) {
        var r, e :| r in rs && e in es && s == InverseTable(b, r, e);
        if r != last {
          assert r in init;
        }
      }
    }
  }

  lemma {:induction false} AllEviscerationsMembers(n: nat, d: nat, lines: seq<seq<nat>>, ps: seq<seq<nat>>, t: seq<nat>)
    requires n >= 1 && t in AllEviscerations(n, d, lines, ps)
    ensures exists p :: p in ps && ValidEvisceration(n, d, lines, p) && t == EviscerationTable(n, d, p)
  {
    var init, last := ps[..|ps| - 1], ps[|ps| - 1];
    if t in AllEviscerations(n, d, lines, init) {
      AllEviscerationsMembers(n, d, lines, init, t);
      var p :| p in init && ValidEvisceration(n, d, lines, p) && t == EviscerationTable(n, d, p);
      assert p in ps;
    } else {
      assert last in ps;
    }
  }

  /** Every side map in ps that passes contributes its table. */
  lemma {:induction false} AllEviscerationsComplete(n: nat, d: nat, lines: seq<seq<nat>>, ps: seq<seq<nat>>, p: seq<nat>)
    requires n >= 1 && p in ps && ValidEvisceration(n, d, lines, p)
    ensures EviscerationTable(n, d, p) in AllEviscerations(n, d, lines, ps)
  {
    var k :| 0 <= k < |ps| && ps[k] == p;
    var t := EviscerationTable(n, d, p);
    var pre := AllEviscerations(n, d, lines, ps[..k + 1]);
    EviscerationsSnoc(n, d, lines, ps, k, true);
    assert pre[|pre| - 1] == t;
    EviscerationsPrefix(n, d, lines, ps, k + 1);
    assert AllEviscerations(n, d, lines, ps)[|pre| - 1] == t;
  }

  /** `generate_all_eviscerations` keeps exactly the tables of the side maps that pass. */
  lemma AllEviscerationsExactly(n: nat, d: nat, lines: seq<seq<nat>>, t: seq<nat>)
    requires n >= 1
    ensures t in AllEviscerations(n, d, lines, Perms(Range(n))) <==>
      exists p :: p in Perms(Range(n)) && ValidEvisceration(n, d, lines, p) && t == EviscerationTable(n, d, p)
  {
    var ps := Perms(Range(n));
    if t in AllEviscerations(n, d, lines, ps) {
      AllEviscerationsMembers(n, d, lines, ps, t);
    }
    if exists p :: p in ps && ValidEvisceration(n, d, lines, p) && t == EviscerationTable(n, d, p) {
      var p :| p in ps && ValidEvisceration(n, d, lines, p) && t == EviscerationTable(n, d, p);
      AllEviscerationsComplete(n, d, lines, ps, p);
    }
  }

  /** One-to-one tables of b positions. */
  predicate Bijections(ts: seq<seq<nat>>, b: nat)
  {
    forall t :: t in ts ==> Table(t, b) && NoDuplicates(t)
  }

  lemma BijectionsAreTables(ts: seq<seq<nat>>, b: nat)
    requires Bijections(ts, b)
    ensures AllTables(ts, b)
  {
  }

  lemma RotationsAreBijections(n: nat, d: nat)
    requires n >= 1
    ensures Bijections(AllRotations(n, d, AxisOrders(d)), Pow(n, d))
  {
    forall r | r in AllRotations(n, d, AxisOrders(d)) ensures Table(r, Pow(n, d)) && NoDuplicates(r) {
      AllRotationsMembers(n, d, AxisOrders(d), r);
      var p, bits: nat :| p in AxisOrders(d) && bits < Pow(2, d) && r == Rotation(n, d, p, bits);
      RotationIsBijection(n, d, p, bits);
    }
  }

  lemma EviscerationsAreBijections(n: nat, d: nat, lines: seq<seq<nat>>)
    requires n >= 1
    ensures Bijections(AllEviscerations(n, d, lines, Perms(Range(n))), Pow(n, d))
  {
    forall t | t in AllEviscerations(n, d, lines, Perms(Range(n))) ensures Table(t, Pow(n, d)) && NoDuplicates(t) {
      AllEviscerationsMembers(n, d, lines, Perms(Range(n)), t);
      var p :| p in Perms(Range(n)) && ValidEvisceration(n, d, lines, p) && t == EviscerationTable(n, d, p);
      EviscerationIsBijection(n, d, p);
    }
  }

  /** The identity table is among the rotations: axes reversed, no reflection. */
  lemma IdentityIsRotation(n: nat, d: nat)
    requires n >= 1
    ensures Range(Pow(n, d)) in AllRotations(n, d, AxisOrders(d))
  {
    RotationIdentity(n, d);
    ReversedAxesVisited(d);
    PowPositive(2, d);
    AllRotationsMembers(n, d, AxisOrders(d), Range(Pow(n, d)));
  }

  /** `symmetry[rotation[evisceration[i]]] == i` for every cell i. */
  predicate Inverts(s: seq<nat>, r: seq<nat>, e: seq<nat>, b: nat)
  {
    Table(r, b) && Table(e, b) && |s| == b && forall i :: 0 <= i < b ==> s[r[e[i]]] == i
  }

  /** Every product undoes its rotation after its evisceration. */
  lemma ProductsInvert(b: nat, rs: seq<seq<nat>>, es: seq<seq<nat>>, s: seq<nat>)
    requires Bijections(rs, b) && Bijections(es, b) && s in Products(b, rs, es)
    ensures exists r, e :: r in rs && e in es && Inverts(s, r, e, b)
  {
    ProductsMembers(b, rs, es, s);
    var r, e :| r in rs && e in es && s == InverseTable(b, r, e);
    assert Table(r, b) && NoDuplicates(r);
    assert Table(e, b) && NoDuplicates(e);
    InverseIsTable(b, r, e);
    InverseTableInverts(b, r, e);
    assert Inverts(s, r, e, b);
  }

  /** The eviscerations are one-to-one tables, the identity first among them. */
  lemma EviscerationFacts(n: nat, d: nat, b: nat, lines: seq<seq<nat>>, es: seq<seq<nat>>)
    requires n >= 1 && b == Pow(n, d) && LinesOk(n, d, lines)
    requires es == AllEviscerations(n, d, lines, Perms(Range(n)))
    ensures Bijections(es, b) && |es| >= 1 && es[0] == Range(b)
  {
    EviscerationsAreBijections(n, d, lines);
    FirstEvisceration(n, d, lines);
  }

  /**
   * What `multiply_groups` leaves behind: syms is the sorted set of products
   * of the one-to-one generators rs and es.
   */
  /** The elements of a list, as a set. */
  ghost function Elements<T>(s: seq<T>): set<T>
  {
    set x | x in s
  }

  ghost predicate Group(b: nat, rs: seq<seq<nat>>, es: seq<seq<nat>>, syms: seq<seq<nat>>)
  {
    Bijections(rs, b) && Bijections(es, b) && OrderedSet(syms) &&
    Elements(syms) == Elements(Products(b, rs, es))
  }

  /**
   * The products of one-to-one generators that include the identity are
   * tables, include the identity, and each undoes a rotation after an
   * evisceration.
   */
  lemma ProductFacts(b: nat, rs: seq<seq<nat>>, es: seq<seq<nat>>, syms: seq<seq<nat>>)
    requires Group(b, rs, es, syms) && Range(b) in rs && Range(b) in es
    ensures AllTables(syms, b) && Range(b) in syms
    ensures forall s :: s in syms ==> exists r, e :: r in rs && e in es && Inverts(s, r, e, b)
  {
    forall s | s in syms ensures Table(s, b) && exists r, e :: r in rs && e in es && Inverts(s, r, e, b) {
      assert s in Elements(syms);
      ProductsMembers(b, rs, es, s);
      var r, e :| r in rs && e in es && s == InverseTable(b, r, e);
      InverseIsTable(b, r, e);
      ProductsInvert(b, rs, es, s);
    }
    InverseOfIdentity(b);
    ProductsMembers(b, rs, es, Range(b));
    assert Range(b) in Elements(Products(b, rs, es));
  }

  /**
   * `Symmetry<N, D>`: built once from a geometry; `symmetries()` reads the
   * sorted, duplicate-free set of products.
   */
  class Symmetry {
    const geom: Geometry
    /** `_symmetries`. */
    var symmetries: seq<seq<nat>>
    var rotations: seq<seq<nat>>
    var eviscerations: seq<seq<nat>>

    /** The board size of the geometry. */
    ghost predicate Shape()
      reads geom
    {
      geom.n >= 1 && geom.boardSize == Pow(geom.n, geom.d)
    }


    /** `rotations` holds every rotation table, the identity among them. */
    ghost predicate RotationsBuilt()
      reads this`rotations, geom
    {
      Shape() &&
      rotations == AllRotations(geom.n, geom.d, AxisOrders(geom.d)) &&
      Bijections(rotations, geom.boardSize) && Range(geom.boardSize) in rotations
    }

    /** `eviscerations` holds every evisceration table, the identity first. */
    ghost predicate EviscerationsBuilt()
      reads this`eviscerations, geom
    {
      Shape() &&
      eviscerations == AllEviscerations(geom.n, geom.d, geom.winningLines, Perms(Range(geom.n))) &&
      Bijections(eviscerations, geom.boardSize) && |eviscerations| >= 1 && eviscerations[0] == Range(geom.boardSize)
    }

    /** The state the constructor leaves behind. */
    ghost predicate Valid()
      reads this, geom
    {
      RotationsBuilt() && EviscerationsBuilt() &&
      Group(geom.boardSize, rotations, eviscerations, symmetries) && Range(geom.boardSize) in symmetries
    }

    constructor (geom: Geometry)
      requires geom.n >= 1 && geom.boardSize == Pow(geom.n, geom.d)
      requires SortedBy(geom.winningLines, LexLe) && LinesOk(geom.n, geom.d, geom.winningLines)
      ensures this.geom == geom && Valid()
    {
      this.geom := geom;
      symmetries, rotations, eviscerations := [], [], [];
      new;
      Build();
    }

    /** The constructor's three steps, in order. */
    method Build()
      requires Shape() && SortedBy(geom.winningLines, LexLe) && LinesOk(geom.n, geom.d, geom.winningLines)
      requires symmetries == [] && rotations == [] && eviscerations == []
      modifies this`symmetries, this`rotations, this`eviscerations
      ensures Valid()
    {
      GenerateAllRotations();
      GenerateAllEviscerations();
      MultiplyGroups();
    }

    /** `generate_rotation(index, bits)`. */
    method GenerateRotation(index: seq<nat>, bits: nat) returns (symmetry: seq<nat>)
      requires Shape() && AxesBelow(index, geom.d)
      ensures symmetry == Rotation(geom.n, geom.d, index, bits)
    {
      var target := Rotation(geom.n, geom.d, index, bits);
      symmetry := [];
      var i := 0;
      while i < geom.boardSize
        invariant 0 <= i <= geom.boardSize && symmetry == target[..i]
      {
        var decoded := geom.Decode(i);
        var ans := RotateCell(index, bits, decoded);
        symmetry := symmetry + [ans];
        i := i + 1;
      }
      assert target[..i] == target;
    }

    /** The inner loop of `generate_rotation`: the image of one cell, given its digits. */
    method RotateCell(index: seq<nat>, bits: nat, decoded: seq<nat>) returns (ans: nat)
      requires geom.n >= 1 && AxesBelow(index, |decoded|) && DigitsBelow(decoded, geom.n)
      ensures ans == MsbEncode(geom.n, RotationDigits(geom.n, index, bits, decoded))
    {
      var n := geom.n;
      ghost var rd := RotationDigits(n, index, bits, decoded);
      ans := 0;
      var currentBits := bits;
      var k := 0;
      while k < |index|
        invariant 0 <= k <= |index|
        invariant ans == MsbEncode(n, rd[..k]) && currentBits == Shift(bits, k)
      {
        var column := decoded[index[k]];
        RotateCellStep(n, index, bits, decoded, k, ans);
        ans := ans * n + (if currentBits % 2 == 0 then column else n - column - 1);
        currentBits := currentBits / 2;
        k := k + 1;
      }
      assert rd[..k] == rd;
    }

    /** The inner loop of `generate_all_rotations`: one axis order with every pattern below `1 << D`. */
    method GenerateRotationsOf(index: seq<nat>)
      requires Shape() && AxesBelow(index, geom.d)
      modifies this`rotations
      ensures rotations == old(rotations) + RotationsOf(geom.n, geom.d, index, Pow(2, geom.d))
    {
      var limit := PowLoop(2, geom.d);
      var i := 0;
      while i < limit
        invariant 0 <= i <= limit
        invariant rotations == old(rotations) + RotationsOf(geom.n, geom.d, index, i)
      {
        var r := GenerateRotation(index, i);
        rotations := rotations + [r];
        i := i + 1;
      }
    }

    /** `generate_all_rotations`: every axis order, each with every reflection pattern. */
    method GenerateAllRotations()
      requires Shape() && rotations == []
      modifies this`rotations
      ensures RotationsBuilt()
    {
      var n, d := geom.n, geom.d;
      // the arrangements `next_permutation` steps through, from `iota` on
      var orders := AxisOrders(d);
      var k := 0;
      while k < |orders|
        invariant 0 <= k <= |orders|
        invariant forall p :: p in orders[..k] ==> AxesBelow(p, d)
        invariant rotations == AllRotations(n, d, orders[..k])
      {
        assert orders[k] in orders;
        GenerateRotationsOf(orders[k]);
        AllRotationsSnoc(n, d, orders, k);
        k := k + 1;
      }
      assert orders[..k] == orders;
      RotationsAreBijections(n, d);
      IdentityIsRotation(n, d);
    }

    /** `search_line`: binary search of the sorted line list. */
    method SearchLine(transformed: seq<nat>) returns (found: bool)
      requires SortedBy(geom.winningLines, LexLe)
      ensures found <==> transformed in geom.winningLines
    {
      found := BinarySearch(geom.winningLines, transformed);
    }

    /** One line of `validate_evisceration`: map its positions, sort them, look the result up. */
    method ImageIsLine(index: seq<nat>, line: seq<nat>) returns (found: bool)
      requires geom.n >= 1 && SortedBy(geom.winningLines, LexLe)
      ensures found <==> ImageKnown(geom.n, geom.d, geom.winningLines, index, line)
    {
      var transformed := geom.ApplyPermutationAll(line, index);
      assert transformed == PermuteLine(geom.n, geom.d, index, line);
      transformed := Sort<nat>(transformed, NatLe);
      found := SearchLine(transformed);
    }

    /** `validate_evisceration`: false at the first line whose sorted image is not a line. */
    method ValidateEvisceration(index: seq<nat>) returns (ok: bool)
      requires geom.n >= 1 && SortedBy(geom.winningLines, LexLe)
      ensures ok <==> ValidEvisceration(geom.n, geom.d, geom.winningLines, index)
    {
      var n, d, lines := geom.n, geom.d, geom.winningLines;
      var li := 0;
      while li < |lines|
        invariant 0 <= li <= |lines|
        invariant forall m :: 0 <= m < li ==> ImageKnown(n, d, lines, index, lines[m])
      {
        var found := ImageIsLine(index, lines[li]);
        if !found {
          return false;
        }
        li := li + 1;
      }
      return true;
    }

    /** `generate_evisceration`: apply the side map to every cell and keep the table. */
    method GenerateEvisceration(index: seq<nat>)
      requires Shape()
      modifies this`eviscerations
      ensures eviscerations == old(eviscerations) + [EviscerationTable(geom.n, geom.d, index)]
    {
      var symmetry := Range(geom.boardSize);
      symmetry := geom.ApplyPermutationAll(symmetry, index);
      assert symmetry == EviscerationTable(geom.n, geom.d, index);
      eviscerations := eviscerations + [symmetry];
    }

    /** One round of `generate_all_eviscerations`: validate the k-th side map and keep it if it passes. */
    method ConsiderEvisceration(orders: seq<seq<nat>>, k: nat)
      requires Shape() && SortedBy(geom.winningLines, LexLe) && k < |orders|
      requires eviscerations == AllEviscerations(geom.n, geom.d, geom.winningLines, orders[..k])
      modifies this`eviscerations
      ensures eviscerations == AllEviscerations(geom.n, geom.d, geom.winningLines, orders[..k + 1])
    {
      var ok := ValidateEvisceration(orders[k]);
      if ok {
        GenerateEvisceration(orders[k]);
      }
      EviscerationsSnoc(geom.n, geom.d, geom.winningLines, orders, k, ok);
    }

    /** `generate_all_eviscerations`: the tables of the side maps that pass validation. */
    method GenerateAllEviscerations()
      requires Shape() && eviscerations == []
      requires SortedBy(geom.winningLines, LexLe) && LinesOk(geom.n, geom.d, geom.winningLines)
      modifies this`eviscerations
      ensures EviscerationsBuilt()
    {
      // the arrangements `next_permutation` steps through, from `iota` on
      var orders := Perms(Range(geom.n));
      var k := 0;
      while k < |orders|
        invariant 0 <= k <= |orders|
        invariant eviscerations == AllEviscerations(geom.n, geom.d, geom.winningLines, orders[..k])
      {
        ConsiderEvisceration(orders, k);
        k := k + 1;
      }
      assert orders[..k] == orders;
      EviscerationFacts(geom.n, geom.d, geom.boardSize, geom.winningLines, eviscerations);
    }

    /** The inner loop of `multiply_groups`: `symmetry[rotation[evisceration[i]]] = i` for every cell. */
    method ComposeInverse(rotation: seq<nat>, evisceration: seq<nat>) returns (symmetry: seq<nat>)
      requires Table(rotation, geom.boardSize) && Table(evisceration, geom.boardSize)
      ensures symmetry == InverseTable(geom.boardSize, rotation, evisceration)
    {
      var b := geom.boardSize;
      var a := new nat[b](_ => 0);
      assert a[..] == Writes(b, rotation, evisceration, 0);
      var i := 0;
      while i < b
        invariant 0 <= i <= b && a[..] == Writes(b, rotation, evisceration, i)
      {
        a[rotation[evisceration[i]]] := i;
        i := i + 1;
      }
      symmetry := a[..];
    }

    /** The inner loop of `multiply_groups`: every product with one rotation, inserted into the set. */
    method InsertRow(unique: seq<seq<nat>>, rotation: seq<nat>) returns (r: seq<seq<nat>>)
      requires OrderedSet(unique) && Table(rotation, geom.boardSize) && AllTables(eviscerations, geom.boardSize)
      ensures OrderedSet(r)
      ensures forall s :: s in r <==> s in unique || s in Row(geom.boardSize, rotation, eviscerations)
    {
      var b := geom.boardSize;
      r := unique;
      var ei := 0;
      while ei < |eviscerations|
        invariant 0 <= ei <= |eviscerations| && OrderedSet(r)
        invariant AllTables(eviscerations[..ei], b)
        invariant forall s :: s in r <==> s in unique || s in Row(b, rotation, eviscerations[..ei])
      {
        assert eviscerations[ei] in eviscerations;
        var symmetry := ComposeInverse(rotation, eviscerations[ei]);
        r := SetInsert(r, symmetry);
        RowSnoc(b, rotation, eviscerations, ei);
        ei := ei + 1;
      }
      assert eviscerations[..ei] == eviscerations;
    }

    /** The `std::set` that `multiply_groups` fills: every product, once each, in order. */
    method ProductSet() returns (unique: seq<seq<nat>>)
      requires AllTables(rotations, geom.boardSize) && AllTables(eviscerations, geom.boardSize)
      ensures OrderedSet(unique)
      ensures forall s :: s in unique <==> s in Products(geom.boardSize, rotations, eviscerations)
    {
      var b := geom.boardSize;
      unique := [];
      var ri := 0;
      while ri < |rotations|
        invariant 0 <= ri <= |rotations| && OrderedSet(unique)
        invariant forall s :: s in unique <==> s in Products(b, rotations[..ri], eviscerations)
      {
        assert rotations[ri] in rotations;
        unique := InsertRow(unique, rotations[ri]);
        ProductsSnoc(b, rotations, eviscerations, ri);
        ri := ri + 1;
      }
      assert rotations[..ri] == rotations;
    }

    /** `multiply_groups`: the set of all products, copied out in order and sorted. */
    method MultiplyGroups()
      requires symmetries == [] && RotationsBuilt() && EviscerationsBuilt()
      modifies this`symmetries
      ensures Valid()
    {
      var b := geom.boardSize;
      BijectionsAreTables(rotations, b);
      BijectionsAreTables(eviscerations, b);
      var unique := ProductSet();
      symmetries := symmetries + unique;
      assert symmetries == unique;
      LexLeTotal();
      SortOfSorted(symmetries, LexLe);
      symmetries := Sort(symmetries, LexLe);
      assert Elements(symmetries) == Elements(Products(b, rotations, eviscerations));
      assert eviscerations[0] in eviscerations;
      ProductFacts(b, rotations, eviscerations, symmetries);
    }
  }
}
